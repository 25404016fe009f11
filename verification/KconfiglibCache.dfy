/** The lazy value cache of tools/kconfig_new/kconfiglib.py and its invalidation. */
module KconfiglibCache {
  import opened Basics
  import opened KconfiglibModel
  import opened KconfiglibValues

  type Cache = map<Cell, Val>

  /** Every cached value is the recomputed one; what was read for it is cached as well; and
      _cached_vis witnesses all other cached values of its item that are not plain constants. */
  ghost predicate Coherent(cfg: Config, rank: Cell -> nat, u: Users, cache: Cache) {
    && (forall c :: c in cache ==> cache[c] == Eval(cfg, rank, u, c))
    && (forall c, d :: c in cache && Property(d) in Reads(cfg, rank, u, Body(cfg, c)) ==> d in cache)
    && (forall c :: c in cache ==> Body(cfg, c).Lit? || Vis(ItemOf(c)) in cache)
  }

  lemma {:induction false} CoherentAdd(cfg: Config, rank: Cell -> nat, u: Users, cache: Cache, c: Cell)
    requires Acyclic(cfg, rank) && Coherent(cfg, rank, u, cache)
    requires forall d :: Property(d) in Reads(cfg, rank, u, Body(cfg, c)) ==> d in cache
    ensures Coherent(cfg, rank, u, cache[c := Eval(cfg, rank, u, c)])
  {
    VisibilityRead(cfg, rank, u, c);
  }

  // ----- what a read brings into the cache -----

  /** The properties that computing c reads, directly or on the way, and c itself. */
  ghost function Closure(cfg: Config, rank: Cell -> nat, u: Users, c: Cell): set<Cell>
    requires Acyclic(cfg, rank)
    decreases rank(c)
  {
    ReadsAreCells(cfg, rank, u, Body(cfg, c));
    {c} + set x, d | x in Reads(cfg, rank, u, Body(cfg, c)) && x.Property? && d in Closure(cfg, rank, u, x.c) :: d
  }

  /** What running t against an empty cache leaves behind. */
  ghost function Needs(cfg: Config, rank: Cell -> nat, u: Users, t: Term): set<Cell>
    requires Acyclic(cfg, rank)
  {
    match t
    case Get(c) => Closure(cfg, rank, u, c)
    case Bin(_, a, b) => Needs(cfg, rank, u, a) + Needs(cfg, rank, u, b)
    case Branch(k, a, b, c) =>
      Needs(cfg, rank, u, a) + Needs(cfg, rank, u, if Takes(k, Run(cfg, rank, u, a)) then b else c)
    case _ => {}
  }

  lemma {:induction false} NeedsReads(cfg: Config, rank: Cell -> nat, u: Users, t: Term, d: Cell)
    requires Acyclic(cfg, rank)
    ensures d in Needs(cfg, rank, u, t)
            <==> exists x :: x in Reads(cfg, rank, u, t) && x.Property? && d in Closure(cfg, rank, u, x.c)
  {
    match t
    case Get(c) => assert Property(c) in Reads(cfg, rank, u, t);
    case Bin(_, a, b) =>
      NeedsReads(cfg, rank, u, a, d);
      NeedsReads(cfg, rank, u, b, d);
    case Branch(k, a, b, c) =>
      NeedsReads(cfg, rank, u, a, d);
      NeedsReads(cfg, rank, u, if Takes(k, Run(cfg, rank, u, a)) then b else c, d);
    case _ =>
  }

  lemma {:induction false} ClosureNeeds(cfg: Config, rank: Cell -> nat, u: Users, c: Cell)
    requires Acyclic(cfg, rank)
    ensures Closure(cfg, rank, u, c) == {c} + Needs(cfg, rank, u, Body(cfg, c))
    ensures forall d :: Property(d) in Reads(cfg, rank, u, Body(cfg, c)) ==> d in Needs(cfg, rank, u, Body(cfg, c))
  {
    forall d ensures d in Needs(cfg, rank, u, Body(cfg, c))
                     <==> exists x :: x in Reads(cfg, rank, u, Body(cfg, c)) && x.Property?
                                     && d in Closure(cfg, rank, u, x.c)
    {
      NeedsReads(cfg, rank, u, Body(cfg, c), d);
    }
    forall d | Property(d) in Reads(cfg, rank, u, Body(cfg, c)) ensures d in Needs(cfg, rank, u, Body(cfg, c)) {
      assert d in Closure(cfg, rank, u, Property(d).c);
    }
  }

  /** A coherent cache has the closure of each of its properties. */
  lemma {:induction false} CoherentClosure(cfg: Config, rank: Cell -> nat, u: Users, cache: Cache, c: Cell)
    requires Acyclic(cfg, rank) && Coherent(cfg, rank, u, cache) && c in cache
    ensures Closure(cfg, rank, u, c) <= cache.Keys
    decreases rank(c)
  {
    ReadsAreCells(cfg, rank, u, Body(cfg, c));
    forall x | x in Reads(cfg, rank, u, Body(cfg, c)) && x.Property? ensures Closure(cfg, rank, u, x.c) <= cache.Keys {
      CoherentClosure(cfg, rank, u, cache, x.c);
    }
  }

  /** A closure has what computing its members reads. */
  lemma {:induction false} ClosureClosed(cfg: Config, rank: Cell -> nat, u: Users, c: Cell, d: Cell, e: Cell)
    requires Acyclic(cfg, rank)
    requires d in Closure(cfg, rank, u, c) && Property(e) in Reads(cfg, rank, u, Body(cfg, d))
    ensures e in Closure(cfg, rank, u, c)
    decreases rank(c)
  {
    ReadsAreCells(cfg, rank, u, Body(cfg, c));
    if d == c {
      assert e in Closure(cfg, rank, u, e);
    } else {
      var x :| x in Reads(cfg, rank, u, Body(cfg, c)) && x.Property? && d in Closure(cfg, rank, u, x.c);
      ClosureClosed(cfg, rank, u, x.c, d, e);
    }
  }

  /** What a read on an empty cache leaves behind is coherent. */
  lemma {:induction false} ClosureCoherent(cfg: Config, rank: Cell -> nat, u: Users, c: Cell)
    requires Acyclic(cfg, rank)
    ensures Coherent(cfg, rank, u, map d | d in Closure(cfg, rank, u, c) :: Eval(cfg, rank, u, d))
  {
    var cache := map d | d in Closure(cfg, rank, u, c) :: Eval(cfg, rank, u, d);
    forall d, e | d in cache && Property(e) in Reads(cfg, rank, u, Body(cfg, d)) ensures e in cache {
      ClosureClosed(cfg, rank, u, c, d, e);
    }
    forall d | d in cache ensures Body(cfg, d).Lit? || Vis(ItemOf(d)) in cache {
      VisibilityRead(cfg, rank, u, d);
      if d.StrV? { VisibilityRead(cfg, rank, u, TriV(d.sym)); }
    }
  }

  /** The early stop assumes that whatever depends on an item without a cached visibility is
      not cached. A value can be cached next to it if and only if nothing of the item but
      constants was read on the way to the value. */
  lemma {:induction false} CachedBesideUncached(cfg: Config, rank: Cell -> nat, u: Users, i: Item, c: Cell)
    requires Finalized(cfg) && Acyclic(cfg, rank) && i in Defined(cfg)
    ensures (exists cache :: Coherent(cfg, rank, u, cache) && c in cache && Vis(i) !in cache)
            <==> forall d :: d in Closure(cfg, rank, u, c) && ItemOf(d) == i ==> Body(cfg, d).Lit?
  {
    var least := map d | d in Closure(cfg, rank, u, c) :: Eval(cfg, rank, u, d);
    ClosureCoherent(cfg, rank, u, c);
    assert c in least;
    WitnessInClosure(cfg, rank, u, i, c);
    forall cache | Coherent(cfg, rank, u, cache) && c in cache ensures Closure(cfg, rank, u, c) <= cache.Keys {
      CoherentClosure(cfg, rank, u, cache, c);
    }
  }

  lemma {:induction false} WitnessInClosure(cfg: Config, rank: Cell -> nat, u: Users, i: Item, c: Cell)
    requires Finalized(cfg) && Acyclic(cfg, rank) && i in Defined(cfg)
    ensures Vis(i) !in Closure(cfg, rank, u, c)
            <==> forall d :: d in Closure(cfg, rank, u, c) && ItemOf(d) == i ==> Body(cfg, d).Lit?
  {
    ClosureCoherent(cfg, rank, u, c);
    assert !Body(cfg, Vis(i)).Lit?;
    var least := map d | d in Closure(cfg, rank, u, c) :: Eval(cfg, rank, u, d);
    assert forall d :: d in Closure(cfg, rank, u, c) ==> d in least;
  }

  // ----- what an invalidation does to the cache -----

  ghost predicate Gone(cache: Cache, i: Item) {
    forall c :: c in cache ==> ItemOf(c) != i
  }

  ghost predicate Kept(cache: Cache, cache': Cache, i: Item) {
    forall c :: c in cache && ItemOf(c) == i ==> c in cache'
  }

  ghost predicate Shrunk(cache: Cache, cache': Cache) {
    forall c :: c in cache' ==> c in cache && cache'[c] == cache[c]
  }

  /** Item i has lost its cached values, and nothing that depends on it has any. */
  ghost predicate Spread(cfg: Config, cache: Cache, i: Item) {
    && i in Defined(cfg)
    && Gone(cache, i)
    && (forall j :: j in Dependents(cfg, i) ==> Vis(j) !in cache)
    && (i == S(cfg.modules) ==> forall j :: j in Defined(cfg) ==> Gone(cache, j))
  }

  ghost predicate Invalidated(cfg: Config, cache: Cache, cache': Cache) {
    Shrunk(cache, cache') && forall i :: Kept(cache, cache', i) || Spread(cfg, cache', i)
  }

  lemma SpreadShrinks(cfg: Config, cache: Cache, cache': Cache, i: Item)
    requires Shrunk(cache, cache') && Spread(cfg, cache, i)
    ensures Spread(cfg, cache', i)
  {
  }

  lemma InvalidatedTwice(cfg: Config, c0: Cache, c1: Cache, c2: Cache)
    requires Invalidated(cfg, c0, c1) && Invalidated(cfg, c1, c2)
    ensures Invalidated(cfg, c0, c2)
  {
    forall i ensures Kept(c0, c2, i) || Spread(cfg, c2, i) {
      if Spread(cfg, c1, i) { SpreadShrinks(cfg, c1, c2, i); }
    }
  }

  /** The heart of the early stop: no input of a value that survived an invalidation belongs
      to an item that was invalidated. */
  lemma {:induction false} SurvivorInput(cfg: Config, rank: Cell -> nat, u: Users, cache: Cache, cache': Cache,
                                         c: Cell, x: Input)
    requires Finalized(cfg) && Coherent(cfg, rank, u, cache) && Invalidated(cfg, cache, cache')
    requires c in cache' && x in Reads(cfg, rank, u, Body(cfg, c))
    ensures !Spread(cfg, cache', Source(x))
  {
    var y, z := ItemOf(c), Source(x);
    BodyReads(cfg, rank, u, c);
    SurvivorVisible(cfg, rank, u, cache, cache', c);
    if y !in Defined(cfg) {
      UndefinedReads(cfg, rank, u, c);
    } else if z != y && z != S(cfg.modules) && z in Defined(cfg) {
      assert y in Dependents(cfg, z);
    }
  }

  lemma SurvivorVisible(cfg: Config, rank: Cell -> nat, u: Users, cache: Cache, cache': Cache, c: Cell)
    requires Coherent(cfg, rank, u, cache) && Invalidated(cfg, cache, cache') && c in cache'
    ensures Body(cfg, c).Lit? || Vis(ItemOf(c)) in cache'
  {
    assert Kept(cache, cache', ItemOf(c)) || Spread(cfg, cache', ItemOf(c));
  }

  lemma {:induction false} SurvivorReads(cfg: Config, rank: Cell -> nat, u: Users, cache: Cache, cache': Cache,
                                         c: Cell, d: Cell)
    requires Finalized(cfg) && Coherent(cfg, rank, u, cache) && Invalidated(cfg, cache, cache')
    requires c in cache' && Property(d) in Reads(cfg, rank, u, Body(cfg, c))
    ensures d in cache'
  {
    SurvivorInput(cfg, rank, u, cache, cache', c, Property(d));
  }

  /** If every surviving cached value and everything it read is untouched by a change of the
      settings, the survivors are still right. */
  lemma {:induction false} SurvivorValue(cfg: Config, rank: Cell -> nat, u: Users, u': Users, cache': Cache, c: Cell)
    requires Acyclic(cfg, rank) && c in cache'
    requires forall c, x :: c in cache' && x in Reads(cfg, rank, u, Body(cfg, c)) ==>
               if x.Property? then x.c in cache' else Agrees(cfg, rank, u, u', x)
    ensures Eval(cfg, rank, u', c) == Eval(cfg, rank, u, c)
    ensures Reads(cfg, rank, u', Body(cfg, c)) == Reads(cfg, rank, u, Body(cfg, c))
    decreases rank(c)
  {
    ReadsAreCells(cfg, rank, u, Body(cfg, c));
    forall x | x in Reads(cfg, rank, u, Body(cfg, c)) ensures Agrees(cfg, rank, u, u', x) {
      if x.Property? {
        SurvivorValue(cfg, rank, u, u', cache', x.c);
      }
    }
    RunFrame(cfg, rank, u, u', Body(cfg, c));
    EvalIsRun(cfg, rank, u, c);
    EvalIsRun(cfg, rank, u', c);
  }

  lemma {:induction false} SurvivorsCoherent(cfg: Config, rank: Cell -> nat, u: Users, u': Users, cache': Cache)
    requires Acyclic(cfg, rank) && Coherent(cfg, rank, u, cache')
    requires forall c, x :: c in cache' && x in Reads(cfg, rank, u, Body(cfg, c)) && !x.Property? ==>
               Agrees(cfg, rank, u, u', x)
    ensures Coherent(cfg, rank, u', cache')
  {
    forall c | c in cache'
      ensures Eval(cfg, rank, u', c) == Eval(cfg, rank, u, c)
      ensures Reads(cfg, rank, u', Body(cfg, c)) == Reads(cfg, rank, u, Body(cfg, c))
    {
      SurvivorValue(cfg, rank, u, u', cache', c);
    }
  }

  lemma InvalidatedCoherent(cfg: Config, rank: Cell -> nat, u: Users, cache: Cache, cache': Cache)
    requires Finalized(cfg) && Coherent(cfg, rank, u, cache) && Invalidated(cfg, cache, cache')
    ensures Coherent(cfg, rank, u, cache')
  {
    forall c, d | c in cache' && Property(d) in Reads(cfg, rank, u, Body(cfg, c)) ensures d in cache' {
      SurvivorReads(cfg, rank, u, cache, cache', c, d);
    }
    forall c | c in cache' ensures Body(cfg, c).Lit? || Vis(ItemOf(c)) in cache' {
      SurvivorVisible(cfg, rank, u, cache, cache', c);
    }
  }

  /** The two settings differ at most in what item i holds. */
  ghost predicate SameElsewhere(u: Users, u': Users, i: Item) {
    && (forall j :: j != i ==> UserValue(u', j) == UserValue(u, j))
    && (forall ch :: C(ch) != i ==> UserSelection(u', ch) == UserSelection(u, ch))
  }

  /** Changing the settings of item i and invalidating i keeps the cache coherent. */
  lemma ChangeAndInvalidate(cfg: Config, rank: Cell -> nat, u: Users, u': Users, cache: Cache, cache': Cache, i: Item)
    requires Finalized(cfg) && Acyclic(cfg, rank) && Coherent(cfg, rank, u, cache)
    requires Invalidated(cfg, cache, cache') && Spread(cfg, cache', i) && SameElsewhere(u, u', i)
    ensures Coherent(cfg, rank, u', cache')
  {
    InvalidatedCoherent(cfg, rank, u, cache, cache');
    forall c, x | c in cache' && x in Reads(cfg, rank, u, Body(cfg, c)) && !x.Property?
      ensures Agrees(cfg, rank, u, u', x)
    {
      SurvivorInput(cfg, rank, u, cache, cache', c, x);
    }
    SurvivorsCoherent(cfg, rank, u, u', cache');
  }

  /** Changing the user value of a symbol that has no prompt needs no invalidation. */
  lemma PromptlessChange(cfg: Config, rank: Cell -> nat, u: Users, u': Users, cache: Cache, s: nat)
    requires Finalized(cfg) && Acyclic(cfg, rank) && Coherent(cfg, rank, u, cache)
    requires cfg.sym(s).prompts == [] && SameElsewhere(u, u', S(s))
    ensures Coherent(cfg, rank, u', cache)
  {
    forall c, x | c in cache && x in Reads(cfg, rank, u, Body(cfg, c)) && !x.Property?
      ensures Agrees(cfg, rank, u, u', x)
    {
      PromptlessUnread(cfg, rank, u, s, c);
    }
    SurvivorsCoherent(cfg, rank, u, u', cache);
  }

  // ----- the imperative cache -----

  class Kconfig {
    const cfg: Config
    ghost const rank: Cell -> nat
    var cache: Cache
    var userValue: map<Item, Val>
    var userSelection: map<nat, nat>

    ghost function Settings(): Users
      reads this
    {
      Users(userValue, userSelection)
    }

    ghost predicate Valid()
      reads this
    {
      && Finalized(cfg) && Acyclic(cfg, rank) && Coherent(cfg, rank, Settings(), cache)
      && GoodSettings(cfg, Settings())
    }

    /** A freshly parsed configuration: nothing set, nothing cached. */
    constructor (cfg: Config, ghost rank: Cell -> nat)
      requires Finalized(cfg) && Acyclic(cfg, rank)
      ensures Valid() && this.cfg == cfg && this.rank == rank
      ensures cache == map[] && userValue == map[] && userSelection == map[]
    {
      this.cfg, this.rank := cfg, rank;
      cache, userValue, userSelection := map[], map[], map[];
    }

    /** A property getter: the value is always what recomputation would give. */
    method Read(c: Cell) returns (v: Val)
      requires Valid()
      modifies `cache
      ensures Valid()
      ensures v == Eval(cfg, rank, Settings(), c)
      ensures cache.Keys == old(cache.Keys) + Closure(cfg, rank, Settings(), c)
      decreases rank(c), 1, Lit(VNone)
    {
      if c in cache {
        CoherentClosure(cfg, rank, Settings(), cache, c);
        return cache[c];
      }
      ClosureNeeds(cfg, rank, Settings(), c);
      EvalIsRun(cfg, rank, Settings(), c);
      v := Evaluate(Body(cfg, c), rank(c));
      CoherentAdd(cfg, rank, Settings(), cache, c);
      cache := cache[c := v];
    }

    /** Runs a getter's program against the cache. */
    method Evaluate(t: Term, ghost bound: nat) returns (v: Val)
      requires Valid()
      requires forall d :: d in Cells(t) ==> rank(d) < bound
      modifies `cache
      ensures Valid()
      ensures v == Run(cfg, rank, Settings(), t)
      ensures cache.Keys == old(cache.Keys) + Needs(cfg, rank, Settings(), t)
      decreases bound, 0, t
    {
      match t
      case Lit(x) => v := x;
      case User(i) => v := if i in userValue then userValue[i] else VNone;
      case UserSel(ch) => v := if ch in userSelection then VSym(userSelection[ch]) else VNone;
      case Get(c) => v := Read(c);
      case Bin(op, a, b) =>
        var x := Evaluate(a, bound);
        var y := Evaluate(b, bound);
        v := Apply(cfg, op, x, y);
      case Branch(k, a, b, c) =>
        var x := Evaluate(a, bound);
        var y;
        var next := if Takes(k, x) then b else c;
        y := Evaluate(next, bound);
        v := Combine(k, x, y);
    }

    /** _invalidate */
    method Invalidate(i: Item)
      modifies `cache
      ensures cache == map c | c in old(cache) && ItemOf(c) != i :: old(cache)[c]
    {
      cache := map c | c in cache && ItemOf(c) != i :: cache[c];
    }

    /** _invalidate_all */
    method InvalidateAll()
      requires Finalized(cfg)
      modifies `cache
      ensures Invalidated(cfg, old(cache), cache)
      ensures forall i :: i in Defined(cfg) ==> Gone(cache, i)
    {
      for n := 0 to |cfg.definedSyms|
        invariant Shrunk(old(cache), cache)
        invariant forall i :: i !in Defined(cfg) ==> Kept(old(cache), cache, i)
        invariant forall m :: 0 <= m < n ==> Gone(cache, S(cfg.definedSyms[m]))
      {
        assert S(cfg.definedSyms[n]) in Defined(cfg);
        Invalidate(S(cfg.definedSyms[n]));
      }
      assert forall s :: s in cfg.definedSyms ==> Gone(cache, S(s));
      for n := 0 to |cfg.choices|
        invariant Shrunk(old(cache), cache)
        invariant forall i :: i !in Defined(cfg) ==> Kept(old(cache), cache, i)
        invariant forall s :: s in cfg.definedSyms ==> Gone(cache, S(s))
        invariant forall m :: 0 <= m < n ==> Gone(cache, C(cfg.choices[m]))
      {
        assert C(cfg.choices[n]) in Defined(cfg);
        Invalidate(C(cfg.choices[n]));
      }
      assert forall i :: i in Defined(cfg) ==> Gone(cache, i);
      forall i ensures Kept(old(cache), cache, i) || Spread(cfg, cache, i) {
      }
    }

    ghost function Witnesses(i: Item): set<Cell>
      reads this
    {
      set c | c in cache && c.Vis? && c != Vis(i)
    }

    /** _rec_invalidate: terminates on the cyclic graph of dependents because every recursive
        call takes away a cached visibility. */
    method RecInvalidate(i: Item)
      requires Finalized(cfg) && i in Defined(cfg)
      modifies `cache
      ensures Invalidated(cfg, old(cache), cache)
      ensures Spread(cfg, cache, i)
      decreases Witnesses(i)
    {
      if i == S(cfg.modules) {
        InvalidateAll();
      } else {
        Invalidate(i);
        ghost var before := cache;
        var rest := Dependents(cfg, i);
        while rest != {}
          invariant rest <= Dependents(cfg, i)
          invariant Invalidated(cfg, before, cache)
          invariant Gone(cache, i)
          invariant forall j :: j in Dependents(cfg, i) - rest ==> Vis(j) !in cache
          decreases rest
        {
          var j :| j in rest;
          rest := rest - {j};
          if Vis(j) in cache {
            assert Witnesses(j) < old(Witnesses(i)) by {
              assert Vis(j) in old(Witnesses(i)) && Vis(j) !in Witnesses(j);
            }
            ghost var mid := cache;
            RecInvalidate(j);
            InvalidatedTwice(cfg, before, mid, cache);
          }
        }
        assert Spread(cfg, cache, i);
        forall k ensures Kept(old(cache), cache, k) || Spread(cfg, cache, k) {
          if k != i {
            assert Kept(old(cache), before, k);
            assert Kept(before, cache, k) || Spread(cfg, cache, k);
          }
        }
      }
    }

    /** Symbol.set_value. The one case that can leave the cache stale is choosing a choice
        symbol that has no prompt. */
    method SetSymbol(s: nat, value: Val) returns (ok: bool)
      requires Valid()
      modifies this
      ensures !(cfg.sym(s).choice.Some? && value == VT(2) && cfg.sym(s).prompts == []) ==> Valid()
      ensures GoodSettings(cfg, Settings())
      ensures cfg.sym(s).prompts == [] ==> cache == old(cache)
      ensures ok <==> value == UserValue(old(Settings()), S(s))
                      || (ValidValue(cfg, cfg.sym(s).origType, value) && !cfg.sym(s).hasEnv)
      ensures if !ok then Settings() == old(Settings())
              else if cfg.sym(s).choice.Some? && value == VT(2) && UserValue(old(Settings()), S(s)) != VT(2) then
                userSelection == old(userSelection)[cfg.sym(s).choice.value := s] && userValue == old(userValue)
              else UserValue(Settings(), S(s)) == value && SameElsewhere(old(Settings()), Settings(), S(s))
    {
      if value == (if S(s) in userValue then userValue[S(s)] else VNone) {
        return true;
      }
      if !ValidValue(cfg, cfg.sym(s).origType, value) || cfg.sym(s).hasEnv {
        return false;
      }
      ok := true;
      if cfg.sym(s).choice.Some? && value == VT(2) {
        Select(s, cfg.sym(s).choice.value);
      } else {
        SetUserValue(s, value);
      }
    }

    // The branch for a choice symbol that is set to y.
    method Select(s: nat, ch: nat)
      requires Valid() && cfg.sym(s).choice == Some(ch)
      modifies this
      ensures cfg.sym(s).prompts != [] ==> Valid()
      ensures cfg.sym(s).prompts == [] ==> cache == old(cache)
      ensures GoodSettings(cfg, Settings())
      ensures userSelection == old(userSelection)[ch := s] && userValue == old(userValue)
    {
      ghost var u, before := Settings(), cache;
      userSelection := userSelection[ch := s];
      GoodSelection(cfg, u, ch, s);
      if cfg.sym(s).prompts != [] {
        assert C(ch) in Defined(cfg);
        RecInvalidate(C(ch));
        ChangeAndInvalidate(cfg, rank, u, Settings(), before, cache, C(ch));
      }
    }

    method SetUserValue(s: nat, value: Val)
      requires Valid() && ValidValue(cfg, cfg.sym(s).origType, value)
      modifies this
      ensures Valid() && UserValue(Settings(), S(s)) == value && SameElsewhere(old(Settings()), Settings(), S(s))
      ensures cfg.sym(s).prompts == [] ==> cache == old(cache)
    {
      ghost var u, before := Settings(), cache;
      userValue := userValue[S(s) := value];
      GoodValue(cfg, u, S(s), cfg.sym(s).origType, value);
      if cfg.sym(s).prompts != [] {
        assert s in cfg.definedSyms && S(s) in Defined(cfg);
        RecInvalidate(S(s));
        ChangeAndInvalidate(cfg, rank, u, Settings(), before, cache, S(s));
      } else {
        PromptlessChange(cfg, rank, u, Settings(), cache, s);
      }
    }

    /** Symbol.unset_value */
    method UnsetSymbol(s: nat)
      requires Valid()
      modifies this
      ensures Valid()
      ensures UserValue(Settings(), S(s)) == VNone && SameElsewhere(old(Settings()), Settings(), S(s))
      ensures cfg.sym(s).prompts == [] ==> cache == old(cache)
    {
      if S(s) in userValue && userValue[S(s)] != VNone {
        ghost var u, before := Settings(), cache;
        userValue := userValue - {S(s)};
        if cfg.sym(s).prompts != [] {
          assert s in cfg.definedSyms && S(s) in Defined(cfg);
          RecInvalidate(S(s));
          ChangeAndInvalidate(cfg, rank, u, Settings(), before, cache, S(s));
        } else {
          PromptlessChange(cfg, rank, u, Settings(), cache, s);
        }
      }
    }

    /** Choice.set_value */
    method SetChoice(ch: nat, value: Val) returns (ok: bool)
      requires Valid() && ch in cfg.choices
      modifies this
      ensures Valid()
      ensures ok <==> value == UserValue(old(Settings()), C(ch))
                      || (value.VT? && ValidValue(cfg, cfg.choice(ch).origType, value))
      ensures if ok then UserValue(Settings(), C(ch)) == value && userSelection == old(userSelection)
                         && SameElsewhere(old(Settings()), Settings(), C(ch))
              else Settings() == old(Settings())
    {
      if value == (if C(ch) in userValue then userValue[C(ch)] else VNone) {
        return true;
      }
      if !(value.VT? && ValidValue(cfg, cfg.choice(ch).origType, value)) {
        return false;
      }
      ok := true;
      ghost var u, before := Settings(), cache;
      userValue := userValue[C(ch) := value];
      assert C(ch) in Defined(cfg);
      RecInvalidate(C(ch));
      ChangeAndInvalidate(cfg, rank, u, Settings(), before, cache, C(ch));
    }

    /** Choice.unset_value */
    method UnsetChoice(ch: nat)
      requires Valid() && ch in cfg.choices
      modifies this
      ensures Valid()
      ensures UserValue(Settings(), C(ch)) == VNone && UserSelection(Settings(), ch) == VNone
      ensures SameElsewhere(old(Settings()), Settings(), C(ch))
    {
      if (C(ch) in userValue && userValue[C(ch)] != VNone) || ch in userSelection {
        ghost var u, before := Settings(), cache;
        userValue, userSelection := userValue - {C(ch)}, userSelection - {ch};
        assert C(ch) in Defined(cfg);
        RecInvalidate(C(ch));
        ChangeAndInvalidate(cfg, rank, u, Settings(), before, cache, C(ch));
      }
    }
  }

  lemma GoodValue(cfg: Config, u: Users, i: Item, typ: Type, value: Val)
    requires GoodSettings(cfg, u) && ValidValue(cfg, typ, value)
    ensures GoodSettings(cfg, Users(u.value[i := value], u.selection))
  {
    var u' := Users(u.value[i := value], u.selection);
    forall j ensures 0 <= T(UserValue(u', j)) <= 2 {
      if j != i { assert UserValue(u', j) == UserValue(u, j); }
    }
  }

  lemma GoodSelection(cfg: Config, u: Users, ch: nat, s: nat)
    requires GoodSettings(cfg, u) && s in cfg.choice(ch).syms
    ensures GoodSettings(cfg, Users(u.value, u.selection[ch := s]))
  {
    var u' := Users(u.value, u.selection[ch := s]);
    assert forall j :: UserValue(u', j) == UserValue(u, j);
  }

  /** The type check of set_value. */
  predicate ValidValue(cfg: Config, typ: Type, v: Val) {
    match typ
    case BOOL => v == VT(0) || v == VT(2)
    case TRISTATE => v == VT(0) || v == VT(1) || v == VT(2)
    case STRING => v.VS?
    case INT => v.VS? && cfg.isBase(v.s, 10)
    case HEX => v.VS? && cfg.isBase(v.s, 16) && cfg.toInt(v.s, 16) >= 0
    case UNKNOWN => false
  }
}
