/** Symbol.assignable of tools/kconfig_new/kconfiglib.py: does it name the user values that
    would be respected? */
module KconfiglibAssignable {
  import opened Basics
  import opened KconfiglibModel
  import opened KconfiglibValues
  import opened KconfiglibCache
  import opened KconfiglibChoice

  /** A defined bool or tristate symbol outside of choices. */
  predicate Ordinary(cfg: Config, s: nat) {
    var d := cfg.sym(s);
    (d.origType.BOOL? || d.origType.TRISTATE?) && d.choice.None? && d.constant.None?
  }

  function Assigning(u: Users, s: nat, v: int): Users {
    Users(u.value[S(s) := VT(v)], u.selection)
  }

  // Properties below the value of s do not depend on what the user assigned to s.
  lemma {:induction false} BelowValue(cfg: Config, rank: Cell -> nat, u: Users, u': Users, s: nat, c: Cell)
    requires Finalized(cfg) && Acyclic(cfg, rank) && Ordinary(cfg, s) && rank(c) < rank(TriV(s))
    requires SameElsewhere(u, u', S(s))
    ensures Eval(cfg, rank, u', c) == Eval(cfg, rank, u, c)
    decreases rank(c)
  {
    assert TriV(s) in Cells(Body(cfg, StrV(s)));
    ReadsAreCells(cfg, rank, u, Body(cfg, c));
    BodyUnassigned(cfg, rank, u, s, c);
    forall x | x in Reads(cfg, rank, u, Body(cfg, c)) ensures Agrees(cfg, rank, u, u', x) {
      if x.Property? { BelowValue(cfg, rank, u, u', s, x.c); }
    }
    RunFrame(cfg, rank, u, u', Body(cfg, c));
    EvalIsRun(cfg, rank, u, c);
    EvalIsRun(cfg, rank, u', c);
  }

  lemma {:induction false} BodyUnassigned(cfg: Config, rank: Cell -> nat, u: Users, s: nat, c: Cell)
    requires Finalized(cfg) && c != TriV(s) && c != StrV(s)
    ensures Setting(S(s)) !in Reads(cfg, rank, u, Body(cfg, c))
  {
    match ItemOf(c)
    case C(ch) =>
      ChoiceBodyWithin(cfg, c, ch, Setting(S(s)));
      ReadsWithin(cfg, rank, u, Body(cfg, c), Scope(cfg, C(ch)), Setting(S(s)));
    case S(x) =>
      SymBodyWithin(cfg, c, x, Setting(S(s)));
      ReadsWithin(cfg, rank, u, Body(cfg, c), Scope(cfg, S(x)), Setting(S(s)));
  }

  // The same for the parts of tri_value that do not look at the user value.
  lemma {:induction false} PartUnassigned(cfg: Config, rank: Cell -> nat, u: Users, u': Users, s: nat, t: Term)
    requires Finalized(cfg) && Acyclic(cfg, rank) && Ordinary(cfg, s) && SameElsewhere(u, u', S(s))
    requires Cells(t) <= Cells(Body(cfg, TriV(s))) && Within(t, Scope(cfg, S(s)), Setting(S(s)))
    ensures Run(cfg, rank, u', t) == Run(cfg, rank, u, t)
  {
    ReadsAreCells(cfg, rank, u, t);
    ReadsWithin(cfg, rank, u, t, Scope(cfg, S(s)), Setting(S(s)));
    forall x | x in Reads(cfg, rank, u, t) ensures Agrees(cfg, rank, u, u', x) {
      if x.Property? { BelowValue(cfg, rank, u, u', s, x.c); }
    }
    RunFrame(cfg, rank, u, u', t);
  }

  ghost function VisOf(cfg: Config, rank: Cell -> nat, u: Users, s: nat): int {
    T(Eval(cfg, rank, u, Vis(S(s))))
  }

  ghost function SelectedTo(cfg: Config, rank: Cell -> nat, u: Users, s: nat): int {
    T(Run(cfg, rank, u, Value(cfg, cfg.sym(s).revDep)))
  }

  ghost function ImpliedTo(cfg: Config, rank: Cell -> nat, u: Users, s: nat): int {
    T(Run(cfg, rank, u, Value(cfg, cfg.sym(s).weakRevDep)))
  }

  ghost predicate CountsAsBool(cfg: Config, rank: Cell -> nat, u: Users, s: nat) {
    Truthy(Run(cfg, rank, u, IsBool(cfg, s)))
  }

  lemma {:induction false} NoMMeans(cfg: Config, rank: Cell -> nat, u: Users, s: nat)
    requires IsTri(Run(cfg, rank, u, Value(cfg, cfg.sym(s).weakRevDep)))
    ensures Truthy(Run(cfg, rank, u, NoM(cfg, s)))
            <==> CountsAsBool(cfg, rank, u, s) || ImpliedTo(cfg, rank, u, s) == 2
  {
    var held := Is(Value(cfg, cfg.sym(s).weakRevDep), 2);
    RunIf(cfg, rank, u, IsBool(cfg, s), ONE, held);
  }

  lemma {:induction false} PartsAreTri(cfg: Config, rank: Cell -> nat, u: Users, s: nat)
    requires Acyclic(cfg, rank) && GoodSettings(cfg, u) && GoodChoices(cfg)
    ensures IsTri(Run(cfg, rank, u, Value(cfg, cfg.sym(s).revDep)))
    ensures IsTri(Run(cfg, rank, u, Value(cfg, cfg.sym(s).weakRevDep)))
    ensures IsTri(Eval(cfg, rank, u, Vis(S(s))))
  {
    ValueIsTri(cfg, cfg.sym(s).revDep);
    ValueIsTri(cfg, cfg.sym(s).weakRevDep);
    TermIsTri(cfg, rank, u, Value(cfg, cfg.sym(s).revDep));
    TermIsTri(cfg, rank, u, Value(cfg, cfg.sym(s).weakRevDep));
    ValuesAreTri(cfg, rank, u, Vis(S(s)));
  }

  /** tri_value of a visible symbol with a user value. */
  lemma AssignedValue(cfg: Config, rank: Cell -> nat, u: Users, s: nat, v: int)
    requires Acyclic(cfg, rank) && GoodSettings(cfg, u) && GoodChoices(cfg) && Ordinary(cfg, s)
    requires UserValue(u, S(s)) == VT(v) && VisOf(cfg, rank, u, s) != 0
    ensures var val := Max(Min(v, VisOf(cfg, rank, u, s)), SelectedTo(cfg, rank, u, s));
            T(Eval(cfg, rank, u, TriV(s)))
            == if val == 1 && (CountsAsBool(cfg, rank, u, s) || ImpliedTo(cfg, rank, u, s) == 2) then 2 else val
  {
    var vis, user, d := Get(Vis(S(s))), User(S(s)), cfg.sym(s);
    PartsAreTri(cfg, rank, u, s);
    NoMMeans(cfg, rank, u, s);
    EvalIsRun(cfg, rank, u, TriV(s));
    var set_, limited := Bin(ONe, user, Lit(VNone)), Bin(OMin, user, vis);
    RunIf(cfg, rank, u, vis, set_, ZERO);
    RunIf(cfg, rank, u, Both(vis, set_), limited, Unset(cfg, s));
    var own := If(Both(vis, set_), limited, Unset(cfg, s));
    assert Run(cfg, rank, u, own) == VT(Min(v, VisOf(cfg, rank, u, s)));
    var joint := Bin(OMax, own, Value(cfg, d.revDep));
    assert Run(cfg, rank, u, joint) == VT(Max(Min(v, VisOf(cfg, rank, u, s)), SelectedTo(cfg, rank, u, s)));
    assert Body(cfg, TriV(s)) == Branch(KPromote, joint, NoM(cfg, s), ZERO);
  }

  /** Visibility m is promoted to y for symbols that count as bool. */
  lemma VisibleM(cfg: Config, rank: Cell -> nat, u: Users, s: nat)
    requires Acyclic(cfg, rank) && Ordinary(cfg, s) && VisOf(cfg, rank, u, s) == 1
    ensures !CountsAsBool(cfg, rank, u, s)
  {
    var d := cfg.sym(s);
    EvalIsRun(cfg, rank, u, Vis(S(s)));
    var isBool := if d.origType.TRISTATE? then IsBool(cfg, s) else ONE;
    assert Body(cfg, Vis(S(s))) == Branch(KPromote, PromptMax(cfg, d.prompts), isBool, ZERO);
  }

  /** The tuple from visibility, select and imply. */
  lemma AssignableTuple(cfg: Config, rank: Cell -> nat, u: Users, s: nat)
    requires Acyclic(cfg, rank) && GoodSettings(cfg, u) && GoodChoices(cfg) && Ordinary(cfg, s)
    ensures var vis, rev, weak := VisOf(cfg, rank, u, s), SelectedTo(cfg, rank, u, s), ImpliedTo(cfg, rank, u, s);
            var noM := CountsAsBool(cfg, rank, u, s) || weak == 2;
            Eval(cfg, rank, u, Assignable(S(s))) == VTuple(
              if vis == 0 then []
              else if rev == 2 then [2]
              else if vis == 2 then
                if rev == 0 then (if noM then [0, 2] else [0, 1, 2]) else (if noM then [2] else [1, 2])
              else if rev == 0 then (if weak != 2 then [0, 1] else [0, 2])
              else [1])
  {
    PartsAreTri(cfg, rank, u, s);
    EvalIsRun(cfg, rank, u, Assignable(S(s)));
    AtY(cfg, rank, u, s);
    AtM(cfg, rank, u, s);
    var vis := Get(Vis(S(s)));
    var at := If(Is(vis, 2), AssignableAtY(cfg, s), AssignableAtM(cfg, s));
    RunIf(cfg, rank, u, Is(vis, 2), AssignableAtY(cfg, s), AssignableAtM(cfg, s));
    var behind := Bin(OThen, Value(cfg, cfg.sym(s).revDep), at);
    assert Run(cfg, rank, u, behind) == Run(cfg, rank, u, at);
    RunIf(cfg, rank, u, Is(vis, 0), Tuple([]), behind);
  }

  lemma {:induction false} AtY(cfg: Config, rank: Cell -> nat, u: Users, s: nat)
    requires Ordinary(cfg, s)
    requires IsTri(Run(cfg, rank, u, Value(cfg, cfg.sym(s).revDep)))
    requires IsTri(Run(cfg, rank, u, Value(cfg, cfg.sym(s).weakRevDep)))
    ensures var rev := SelectedTo(cfg, rank, u, s);
            var noM := CountsAsBool(cfg, rank, u, s) || ImpliedTo(cfg, rank, u, s) == 2;
            Run(cfg, rank, u, AssignableAtY(cfg, s)) == VTuple(
              if rev == 0 then (if noM then [0, 2] else [0, 1, 2])
              else if rev == 2 then [2] else if noM then [2] else [1, 2])
  {
    var rev := Value(cfg, cfg.sym(s).revDep);
    NoMMeans(cfg, rank, u, s);
    var free := If(NoM(cfg, s), Tuple([0, 2]), Tuple([0, 1, 2]));
    var atM := If(NoM(cfg, s), Tuple([2]), Tuple([1, 2]));
    var other := If(Is(rev, 2), Tuple([2]), atM);
    RunIf(cfg, rank, u, NoM(cfg, s), Tuple([0, 2]), Tuple([0, 1, 2]));
    RunIf(cfg, rank, u, NoM(cfg, s), Tuple([2]), Tuple([1, 2]));
    RunIf(cfg, rank, u, Is(rev, 2), Tuple([2]), atM);
    RunIf(cfg, rank, u, Is(rev, 0), free, other);
  }

  lemma {:induction false} AtM(cfg: Config, rank: Cell -> nat, u: Users, s: nat)
    requires IsTri(Run(cfg, rank, u, Value(cfg, cfg.sym(s).revDep)))
    requires IsTri(Run(cfg, rank, u, Value(cfg, cfg.sym(s).weakRevDep)))
    ensures var rev, weak := SelectedTo(cfg, rank, u, s), ImpliedTo(cfg, rank, u, s);
            Run(cfg, rank, u, AssignableAtM(cfg, s)) == VTuple(
              if rev == 0 then (if weak != 2 then [0, 1] else [0, 2]) else if rev == 2 then [2] else [1])
  {
    var rev, weak := Value(cfg, cfg.sym(s).revDep), Value(cfg, cfg.sym(s).weakRevDep);
    var free := If(IsNot(weak, 2), Tuple([0, 1]), Tuple([0, 2]));
    var other := If(Is(rev, 2), Tuple([2]), Tuple([1]));
    RunIf(cfg, rank, u, IsNot(weak, 2), Tuple([0, 1]), Tuple([0, 2]));
    RunIf(cfg, rank, u, Is(rev, 2), Tuple([2]), Tuple([1]));
    RunIf(cfg, rank, u, Is(rev, 0), free, other);
  }

  // Assigning to s leaves everything that decides about it as it was.
  lemma AssigningFrame(cfg: Config, rank: Cell -> nat, u: Users, s: nat, v: int)
    requires Finalized(cfg) && Acyclic(cfg, rank) && Ordinary(cfg, s)
    ensures var u' := Assigning(u, s, v);
            && VisOf(cfg, rank, u', s) == VisOf(cfg, rank, u, s)
            && SelectedTo(cfg, rank, u', s) == SelectedTo(cfg, rank, u, s)
            && ImpliedTo(cfg, rank, u', s) == ImpliedTo(cfg, rank, u, s)
            && CountsAsBool(cfg, rank, u', s) == CountsAsBool(cfg, rank, u, s)
  {
    var u', d := Assigning(u, s, v), cfg.sym(s);
    SymPartsWithin(cfg, s, Setting(S(s)));
    TriCells(cfg, s);
    BelowValue(cfg, rank, u, u', s, Vis(S(s)));
    PartUnassigned(cfg, rank, u, u', s, Value(cfg, d.revDep));
    PartUnassigned(cfg, rank, u, u', s, Value(cfg, d.weakRevDep));
    PartUnassigned(cfg, rank, u, u', s, IsBool(cfg, s));
  }

  lemma {:induction false} TriCells(cfg: Config, s: nat)
    requires Ordinary(cfg, s)
    ensures var d, cells := cfg.sym(s), Cells(Body(cfg, TriV(s)));
            && Vis(S(s)) in cells && Cells(Value(cfg, d.revDep)) <= cells
            && Cells(Value(cfg, d.weakRevDep)) <= cells && Cells(IsBool(cfg, s)) <= cells
  {
    var d, vis := cfg.sym(s), Get(Vis(S(s)));
    var set_ := Bin(ONe, User(S(s)), Lit(VNone));
    var own := If(Both(vis, set_), Bin(OMin, User(S(s)), vis), Unset(cfg, s));
    var joint := Bin(OMax, own, Value(cfg, d.revDep));
    assert Cells(NoM(cfg, s)) == Cells(IsBool(cfg, s)) + Cells(Is(Value(cfg, d.weakRevDep), 2));
    assert Cells(Body(cfg, TriV(s))) == Cells(joint) + Cells(NoM(cfg, s));
    assert Cells(joint) == Cells(own) + Cells(Value(cfg, d.revDep));
    assert Cells(Bin(OMin, User(S(s)), vis)) == {} + {Vis(S(s))};
    assert Cells(own) == Cells(Both(vis, set_)) + Cells(Bin(OMin, User(S(s)), vis)) + Cells(Unset(cfg, s));
  }

  /** For a visible symbol, assignable lists v exactly when assigning v makes v its value;
      except that, visible at m and selected to m while an imply holds it at y, it lists m
      although every assignment gives y. */
  lemma AssignableRespected(cfg: Config, rank: Cell -> nat, u: Users, s: nat, v: int)
    requires Finalized(cfg) && Acyclic(cfg, rank) && GoodSettings(cfg, u) && GoodChoices(cfg) && Ordinary(cfg, s)
    requires 0 <= v <= 2 && VisOf(cfg, rank, u, s) != 0
    ensures Eval(cfg, rank, u, Assignable(S(s))).VTuple?
    ensures (v in Eval(cfg, rank, u, Assignable(S(s))).ts
             <==> T(Eval(cfg, rank, Assigning(u, s, v), TriV(s))) == v)
            <==> !(v != 0 && VisOf(cfg, rank, u, s) == 1 && SelectedTo(cfg, rank, u, s) == 1
                   && ImpliedTo(cfg, rank, u, s) == 2)
  {
    var u' := Assigning(u, s, v);
    PartsAreTri(cfg, rank, u, s);
    AssigningFrame(cfg, rank, u, s, v);
    assert GoodSettings(cfg, u') by {
      forall i ensures 0 <= T(UserValue(u', i)) <= 2 {
        if i != S(s) { assert UserValue(u', i) == UserValue(u, i); }
      }
    }
    AssignedValue(cfg, rank, u', s, v);
    AssignableTuple(cfg, rank, u, s);
    if VisOf(cfg, rank, u, s) == 1 { VisibleM(cfg, rank, u, s); }
  }
}
