// Which constants can be told apart by the values of a symbol: what the
// simplifier takes for granted of a valuation, and when the values of a
// configuration meet it.
module Constants {
  import opened Tristate
  import opened Exprs
  import opened Numerals
  import opened Comparisons
  import opened Duplicates
  import opened TransComparison
  import opened Transformation
  import opened MenuDependencies
  import opened Symbols
  import opened SymbolLaws

  // The constants y, m, n, and quoted strings.
  predicate IsConstant(c: Sym) {
    c.Config? ==> c.quoted && c.ty.Unknown?
  }

  function NameOf(c: Sym): string {
    Constant(c).str
  }

  // No value of a bool or tristate symbol equals both.
  ghost predicate Apart(b: Sym, c: Sym) {
    forall t: Tri :: !(Matches(NameOf(b), t) && Matches(NameOf(c), t))
  }

  // ---- One symbol ----

  // The symbol s has value t, all other symbols stand for their names.
  function OnlyValue(s: Sym, t: Tri): Env {
    Env((x: Sym) => if x == s then t else Constant(x).tri,
        (a: Sym, b: Sym) => Compare(a.Type(), NameIn(s, t, a), b.Type(), NameIn(s, t, b)))
  }

  function NameIn(s: Sym, t: Tri, x: Sym): string {
    if x == s then TriName(t) else NameOf(x)
  }

  lemma EqualInOnlyValue(s: Sym, t: Tri, c: Sym)
    requires s.Type().Tristate? && IsConstant(c)
    ensures OnlyValue(s, t).cmp(s, c).res == 0 <==> Matches(NameOf(c), t)
  {
    EqualsConstant(s.Type(), t, NameOf(c));
  }

  // (a=b) && (a!=c) -> a=b is right for all values of a exactly if the two
  // constants are apart.
  lemma JoinExactOnConstants(s: Sym, b: Sym, c: Sym)
    requires s.Type().Tristate? && IsConstant(b) && IsConstant(c) && b != c
    ensures var e1, e2 := Cmp(Eq, s, b), Cmp(Neq, s, c);
            && JoinAnd(e1, e2) == Some(e1)
            && ((forall t: Tri :: Eval(e1, OnlyValue(s, t)) == Eval(Bin(AndOp, e1, e2), OnlyValue(s, t))) <==> Apart(b, c))
  {
    var e1, e2 := Cmp(Eq, s, b), Cmp(Neq, s, c);
    forall t: Tri
      ensures Eval(e1, OnlyValue(s, t)) == Eval(Bin(AndOp, e1, e2), OnlyValue(s, t)) <==>
              !(Matches(NameOf(b), t) && Matches(NameOf(c), t))
    {
      EqualUnequalExact(s, b, c, OnlyValue(s, t));
      EqualInOnlyValue(s, t, b);
      EqualInOnlyValue(s, t, c);
    }
    if Apart(b, c) {
    } else {
      var t: Tri :| Matches(NameOf(b), t) && Matches(NameOf(c), t);
      assert Eval(e1, OnlyValue(s, t)) != Eval(Bin(AndOp, e1, e2), OnlyValue(s, t));
    }
  }

  // n and "0" are not: n is compared as a string, "0" as a number.
  lemma LetterAndNumber()
    ensures var zero := Config("0", Unknown, true);
            IsConstant(zero) && SymNo != zero && !Apart(SymNo, zero)
  {
    var s := "0";
    assert s[0..] == s && s[1..] == "";
    assert Scan(s, 0) == Found(false, 0, 1) by {
      assert Spaces(s) == 0 && !Signed(s) && !SkipsPrefix(s, 0);
      assert Digits(s, 8) == 1 + Digits(s[1..], 8);
      assert s[..1] == s && ValueOf(s[..0], 8) == 0;
    }
    assert NameOf(Config("0", Unknown, true)) == s && Matches(s, NO);
    assert NameOf(SymNo) == TriName(NO);
    LetterMatches(NO, NO);
  }

  // ---- A string that reads y ----

  const Text := Config("TEXT", String, false)

  const OneString := Kconfig(map[Text := Decl([None], [None], [], [], [], None, None)], NO)

  const ReadsYes: Users := map[Text := Value(NO, "y")]

  // In this configuration the string equals y, but is no set symbol.
  lemma StringNotForced(rank: Rank)
    ensures Acyclic(OneString, rank)
    ensures var env := Full(OneString, rank, ReadsYes).env;
            && DependsOn(Cmp(Eq, Text, SymYes), Text)
            && Eval(Cmp(Eq, Text, SymYes), env) == YES && env.tri(Text) == NO
  {
    NothingMentioned();
    TextValue(rank);
    YesEqualsYes();
    var env := Full(OneString, rank, ReadsYes).env;
    assert env.cmp(Text, SymYes) == Compare(String, "y", Unknown, "y");
  }

  lemma NothingMentioned()
    ensures forall t: Sym :: !Mentions(OneString.decls[Text], t)
  {
    var es: seq<Option<Expr>> := [None];
    assert DirDep(es) == AllocOr(DirDep(es[..0]), None) == None;
  }

  lemma TextValue(rank: Rank)
    requires Acyclic(OneString, rank)
    ensures Den(OneString, rank, ReadsYes, Text) == Value(NO, "y")
  {
    var env := Full(OneString, rank, ReadsYes).env;
    DenUnfolds(OneString, rank, ReadsYes, Text);
    var ps: seq<Option<Expr>> := [None];
    assert AnyPrompt(ps, env) == Max(EvalCond(ps[0], env), AnyPrompt(ps[1..], env)) == YES;
  }

  lemma YesEqualsYes()
    ensures Compare(String, "y", Unknown, "y").res == 0
  {
    LetterIsNoNumber(YES);
    StrCmpEqual("y", "y");
  }

  // ---- The values of a configuration ----

  // Typed but for the constants.
  ghost predicate Sorted(env: Env) {
    && env.tri(SymYes) == YES && env.tri(SymMod) == MOD && env.tri(SymNo) == NO
    && (forall s: Sym :: s.Type().Boolean? ==> env.tri(s) != MOD)
    && (forall s: Sym, c: Sym {:trigger env.cmp(s, c)} ::
          s.IsLogical() && !c.Config? ==>
            (env.cmp(s, c).res == 0 <==> env.tri(s) == env.tri(c)))
  }

  lemma LogicalString(k: Kconfig, rank: Rank, users: Users, s: Sym)
    requires Acyclic(k, rank) && s.IsLogical()
    ensures StringOf(k, s, Den(k, rank, users, s)) == TriName(Den(k, rank, users, s).tri)
  {
    if k.modules == NO {
      BoolNeverMod(k, rank, users, s);
    }
  }

  lemma EqualInFull(k: Kconfig, rank: Rank, users: Users, s: Sym, c: Sym)
    requires Acyclic(k, rank) && s.IsLogical() && IsConstant(c)
    ensures Full(k, rank, users).env.cmp(s, c).res == 0 <==> Matches(NameOf(c), Den(k, rank, users, s).tri)
  {
    LogicalString(k, rank, users, s);
    EqualsConstant(s.Type(), Den(k, rank, users, s).tri, NameOf(c));
  }

  lemma FullIsSorted(k: Kconfig, rank: Rank, users: Users)
    requires Acyclic(k, rank)
    ensures Sorted(Full(k, rank, users).env)
  {
    ConstantValues(k, rank, users);
    forall s: Sym | s.Type().Boolean? ensures Full(k, rank, users).env.tri(s) != MOD {
      BoolNeverMod(k, rank, users, s);
    }
    forall s: Sym, c: Sym | s.IsLogical() && !c.Config?
      ensures Full(k, rank, users).env.cmp(s, c).res == 0 <==> Full(k, rank, users).env.tri(s) == Full(k, rank, users).env.tri(c)
    {
      EqualsLetter(k, rank, users, s, c);
    }
  }

  lemma ConstantValues(k: Kconfig, rank: Rank, users: Users)
    requires Acyclic(k, rank)
    ensures forall c: Sym :: !c.Config? ==> Den(k, rank, users, c) == Constant(c)
  {
  }

  lemma EqualsLetter(k: Kconfig, rank: Rank, users: Users, s: Sym, c: Sym)
    requires Acyclic(k, rank) && s.IsLogical() && !c.Config?
    ensures Full(k, rank, users).env.cmp(s, c).res == 0 <==> Den(k, rank, users, s).tri == Den(k, rank, users, c).tri
  {
    ConstantValues(k, rank, users);
    EqualInFull(k, rank, users, s, c);
    LetterMatches(Den(k, rank, users, s).tri, Constant(c).tri);
  }

  // The constants an expression refers to, besides y, m and n, are among
  // those with P(c).
  ghost predicate ConstantsIn(e: Option<Expr>, p: Sym -> bool) {
    forall c: Sym :: MentionsCond(e, c) && c.IsConst() && c.Config? ==> p(c)
  }

  ghost predicate AllApart(p: Sym -> bool) {
    && (forall c: Sym :: p(c) ==> IsConstant(c))
    && (forall b: Sym, c: Sym :: (!b.Config? || p(b)) && (!c.Config? || p(c)) && b != c ==> Apart(b, c))
  }

  // The same valuation, but no tristate symbol equals a constant without P.
  function Twin(env: Env, p: Sym -> bool): Env {
    env.(cmp := (a: Sym, b: Sym) =>
      if a.Type().Tristate? && b.IsConst() && b.Config? && !p(b) then Comparison(1, true) else env.cmp(a, b))
  }

  lemma TwinIsTyped(k: Kconfig, rank: Rank, users: Users, p: Sym -> bool)
    requires Acyclic(k, rank) && AllApart(p)
    ensures WellTyped(Twin(Full(k, rank, users).env, p))
  {
    FullIsSorted(k, rank, users);
    var twin := Twin(Full(k, rank, users).env, p);
    forall s: Sym, c: Sym, d: Sym | s.Type().Tristate? && c.IsConst() && d.IsConst() && c != d
      ensures twin.cmp(s, c).res != 0 || twin.cmp(s, d).res != 0
    {
      if (c.Config? ==> p(c)) && (d.Config? ==> p(d)) {
        assert Apart(c, d);
        EqualInFull(k, rank, users, s, c);
        EqualInFull(k, rank, users, s, d);
      }
    }
  }

  lemma TwinAgrees(e: Option<Expr>, env: Env, p: Sym -> bool)
    requires ConstantsIn(e, p)
    ensures EvalCond(e, Twin(env, p)) == EvalCond(e, env)
  {
    if e.Some? {
      ContainsIsSupport(e.value, Twin(env, p), env);
    }
  }

  lemma {:induction false} TwinComparable(e: Expr, env: Env, p: Sym -> bool)
    requires ConstantsIn(Some(e), p)
    ensures Comparable(e, Twin(env, p)) <==> Comparable(e, env)
  {
    match e
    case Not(a) =>
      assert forall c :: Contains(a, c) ==> MentionsCond(Some(e), c);
      TwinComparable(a, env, p);
    case Bin(_, l, r) =>
      assert forall c :: Contains(l, c) || Contains(r, c) ==> MentionsCond(Some(e), c);
      TwinComparable(l, env, p);
      TwinComparable(r, env, p);
    case Cmp(_, a, b) =>
      assert MentionsCond(Some(e), b);
    case Var(_) =>
  }

  // What the simplifier finds equivalent has the same value in every
  // configuration, if the constants involved are apart.
  lemma EquivalentInFull(k: Kconfig, rank: Rank, users: Users, e: Expr, r: Expr, p: Sym -> bool)
    requires Acyclic(k, rank) && Equivalent(e, r) && NoNew(e, r)
    requires AllApart(p) && ConstantsIn(Some(e), p)
    ensures Eval(e, Full(k, rank, users).env) == Eval(r, Full(k, rank, users).env)
  {
    var env := Full(k, rank, users).env;
    TwinIsTyped(k, rank, users, p);
    assert ConstantsIn(Some(r), p) by {
      forall c: Sym | Contains(r, c) && c.IsConst() && c.Config? ensures p(c) {
        assert MentionsCond(Some(e), c);
      }
    }
    TwinAgrees(Some(e), env, p);
    TwinAgrees(Some(r), env, p);
    assert Eval(e, Twin(env, p)) == Eval(r, Twin(env, p));
  }

  lemma ConditionsInFull(k: Kconfig, rank: Rank, users: Users, modules: Sym, parentDep: Option<Expr>, own: Option<Expr>,
                         r: Option<Expr>, p: Sym -> bool)
    requires Acyclic(k, rank) && ComparableCond(own, Full(k, rank, users).env)
    requires AllApart(p) && ConstantsIn(parentDep, p) && ConstantsIn(own, p)
    requires AddsNone(parentDep, own, modules, r) && !modules.IsConst()
    ensures var env := Full(k, rank, users).env;
            var twin := Twin(env, p);
            && WellTyped(twin) && ComparableCond(own, twin)
            && EvalCond(r, twin) == EvalCond(r, env) && EvalCond(parentDep, twin) == EvalCond(parentDep, env)
            && EvalCond(own, WithModules(twin, modules)) == EvalCond(own, WithModules(env, modules))
  {
    var env := Full(k, rank, users).env;
    var twin := Twin(env, p);
    TwinIsTyped(k, rank, users, p);
    assert ConstantsIn(r, p);
    TwinAgrees(r, env, p);
    TwinAgrees(parentDep, env, p);
    TwinAgrees(own, WithModules(env, modules), p);
    if own.Some? {
      TwinComparable(own.value, env, p);
      ContainsIsSupport(own.value, Twin(WithModules(env, modules), p), WithModules(twin, modules));
    }
  }

  // And a finalised condition has, in every configuration, the value
  // min(parent condition, own condition), ...
  lemma InheritedInFull(k: Kconfig, rank: Rank, users: Users, modules: Sym, parentDep: Option<Expr>, own: Option<Expr>,
                        r: Option<Expr>, p: Sym -> bool)
    requires Acyclic(k, rank) && ComparableCond(own, Full(k, rank, users).env)
    requires AllApart(p) && ConstantsIn(parentDep, p) && ConstantsIn(own, p) && !modules.IsConst()
    requires Inherits(parentDep, own, modules, r)
    ensures var env := Full(k, rank, users).env;
            EvalCond(r, env) == Min(EvalCond(parentDep, env), EvalCond(own, WithModules(env, modules)))
  {
    ConditionsInFull(k, rank, users, modules, parentDep, own, r, p);
  }

  // ... or, for a symbol that is not tristate, is n exactly if that is n.
  lemma InheritedNonNInFull(k: Kconfig, rank: Rank, users: Users, modules: Sym, parentDep: Option<Expr>, own: Option<Expr>,
                            r: Option<Expr>, p: Sym -> bool)
    requires Acyclic(k, rank) && ComparableCond(own, Full(k, rank, users).env)
    requires AllApart(p) && ConstantsIn(parentDep, p) && ConstantsIn(own, p) && !modules.IsConst()
    requires InheritsNonN(parentDep, own, modules, r)
    ensures var env := Full(k, rank, users).env;
            EvalCond(r, env) == NO <==> Min(EvalCond(parentDep, env), EvalCond(own, WithModules(env, modules))) == NO
  {
    ConditionsInFull(k, rank, users, modules, parentDep, own, r, p);
  }
}
