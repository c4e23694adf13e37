// conf_write_defconfig: the settings that differ from the defaults are enough
// to restore the whole configuration.
module Defconfig {
  import opened Tristate
  import opened Exprs
  import opened MenuDependencies
  import opened Numerals
  import opened Symbols
  import opened SymbolLaws
  import opened StringSettings

  // SYMBOL_WRITE after sym_calc_value
  predicate Written(k: Kconfig, s: Sym, view: View) {
    var a := AttributesOf(k, s, view.env);
    var d := FirstDefault(DeclOf(k, s).defaults, view.env);
    match s.Type()
    case Unknown => false
    case Other => false
    case Boolean => a.visible != NO || a.rev != NO || a.implied != NO || DefaultTri(k, s, view.env) != NO
    case Tristate => a.visible != NO || a.rev != NO || a.implied != NO || DefaultTri(k, s, view.env) != NO
    case _ => a.visible != NO || (d.Some? && d.value.value.Var?)
  }

  // The symbols conf_write_defconfig does not skip.
  predicate Emitted(k: Kconfig, user: Option<Value>, s: Sym, view: View) {
    var a := AttributesOf(k, s, view.env);
    && Written(k, s, view)
    && a.visible > a.rev
    && StringOf(k, s, Compute(k, user, s, view)) != StringDefault(k, s, view)
  }

  // The file holds the emitted symbols with their values, as the user's
  // settings are read back from it.
  ghost predicate IsMinimal(k: Kconfig, rank: Rank, users: Users, minimal: Users)
    requires Acyclic(k, rank)
  {
    var view := Full(k, rank, users);
    forall s: Sym ::
      && (s in minimal <==> Emitted(k, UserOf(users, s), s, view))
      && (s in minimal ==>
            var v := Den(k, rank, users, s);
            if s.IsLogical() then minimal[s].tri == v.tri else minimal[s].str == v.str)
  }

  // The chosen ones among the symbols walked over so far, with their values.
  ghost predicate Collected(chosen: Sym -> bool, value: Sym -> Value, walked: seq<Sym>, minimal: Users) {
    forall s: Sym {:trigger s in minimal} ::
      && (s in minimal <==> s in walked && chosen(s))
      && (s in minimal ==> minimal[s] == value(s))
  }

  ghost function EmittedIn(k: Kconfig, rank: Rank, users: Users): Sym -> bool
    requires Acyclic(k, rank)
  {
    (s: Sym) => Emitted(k, UserOf(users, s), s, Full(k, rank, users))
  }

  ghost function ValueIn(k: Kconfig, rank: Rank, users: Users): Sym -> Value
    requires Acyclic(k, rank)
  {
    (s: Sym) => Den(k, rank, users, s)
  }

  lemma CollectOne(chosen: Sym -> bool, value: Sym -> Value, walked: seq<Sym>, minimal: Users, s: Sym)
    requires Collected(chosen, value, walked, minimal)
    ensures Collected(chosen, value, walked + [s], if chosen(s) then minimal[s := value(s)] else minimal)
  {
  }

  lemma CollectedAgain(chosen: Sym -> bool, value: Sym -> Value, walked: seq<Sym>, minimal: Users, s: Sym)
    requires Collected(chosen, value, walked, minimal) && s in walked
    ensures Collected(chosen, value, walked + [s], minimal)
  {
  }

  // A symbol without a prompt is never emitted, so it is enough to walk over
  // the symbols that have one.
  lemma CollectedAll(k: Kconfig, rank: Rank, users: Users, walked: seq<Sym>, minimal: Users)
    requires Acyclic(k, rank)
    requires Collected(EmittedIn(k, rank, users), ValueIn(k, rank, users), walked, minimal)
    requires forall s :: s in k.decls && k.decls[s].prompts != [] ==> s in walked
    ensures IsMinimal(k, rank, users, minimal)
  {
    forall s: Sym | Emitted(k, UserOf(users, s), s, Full(k, rank, users)) ensures s in walked {
      assert DeclOf(k, s).prompts != [];
    }
    forall s: Sym ensures s in minimal <==> Emitted(k, UserOf(users, s), s, Full(k, rank, users)) {
      assert s in minimal || s !in minimal;
    }
  }

  lemma StringTellsValue(k: Kconfig, s: Sym, v: Value, w: Value)
    requires s.IsLogical() && StringOf(k, s, v) == StringOf(k, s, w)
    requires k.modules == NO ==> v.tri != MOD && w.tri != MOD
    ensures v.tri == w.tri
  {
    assert "y"[0] != "m"[0] && "y"[0] != "n"[0] && "m"[0] != "n"[0];
  }

  // The one setting of a bool or tristate symbol that is lost: only m is
  // visible, m is selected, so the symbol is skipped as unchangeable; but
  // without the setting its default makes it y.
  predicate SettingLost(k: Kconfig, user: Option<Value>, s: Sym, view: View) {
    var a := AttributesOf(k, s, view.env);
    && s.IsLogical() && user.Some?
    && a.visible == MOD && a.rev == MOD && a.implied != YES
    && DefaultTri(k, s, view.env) == YES
  }

  // The settings of strings and numbers that are lost. Of a changeable symbol:
  // if the range does not keep what it has clamped. Of one that is selected
  // though it is neither bool nor tristate, and so skipped as unchangeable: if
  // the setting made a difference.
  predicate NumberLost(k: Kconfig, user: Option<Value>, s: Sym, view: View) {
    var a, default := AttributesOf(k, s, view.env), DefaultStr(k, s, view);
    && (s.Type().Int? || s.Type().Hex? || s.Type().String?)
    && a.visible != NO
    && if a.visible > a.rev then
         !RangeStable(k, s, if user.Some? then user.value.str else default, view)
       else
         user.Some? && Clamp(k, s, user.value.str, view) != Clamp(k, s, default, view)
  }

  predicate Lost(k: Kconfig, user: Option<Value>, s: Sym, view: View) {
    SettingLost(k, user, s, view) || NumberLost(k, user, s, view)
  }

  // One symbol: what is kept of its setting gives the same value again.
  lemma SymbolRestored(k: Kconfig, user: Option<Value>, s: Sym, view: View, kept: Option<Value>)
    requires kept.Some? <==> Emitted(k, user, s, view)
    requires kept.Some? ==>
               var v := Compute(k, user, s, view);
               if s.IsLogical() then kept.value.tri == v.tri else kept.value.str == v.str
    ensures Compute(k, kept, s, view) == Compute(k, user, s, view) <==> !Lost(k, user, s, view)
  {
    if s.IsLogical() {
      DefaultsAgree(k, s, view);
      if StringOf(k, s, Compute(k, user, s, view)) == StringDefault(k, s, view) {
        StringTellsValue(k, s, Compute(k, user, s, view), Compute(k, None, s, view));
      }
    } else if s.Type().Int? || s.Type().Hex? || s.Type().String? {
      var visible := AttributesOf(k, s, view.env).visible;
      ClampTwice(k, s, if visible != NO && user.Some? then user.value.str else DefaultStr(k, s, view), view);
    }
  }

  lemma KeptComputation(k: Kconfig, rank: Rank, users: Users, minimal: Users, t: Sym)
    requires Acyclic(k, rank)
    requires IsMinimal(k, rank, users, minimal)
    ensures var view := Full(k, rank, users);
            Compute(k, UserOf(minimal, t), t, view) == Compute(k, UserOf(users, t), t, view)
            <==> !Lost(k, UserOf(users, t), t, view)
  {
    DenUnfolds(k, rank, users, t);
    SymbolRestored(k, UserOf(users, t), t, Full(k, rank, users), UserOf(minimal, t));
  }

  // Evaluating from the emitted settings alone gives every symbol the value
  // it has in the full configuration, ...
  lemma MinimalConfigRestores(k: Kconfig, rank: Rank, users: Users, minimal: Users, s: Sym)
    requires Acyclic(k, rank)
    requires IsMinimal(k, rank, users, minimal)
    requires forall t: Sym :: !Lost(k, UserOf(users, t), t, Full(k, rank, users))
    ensures Den(k, rank, minimal, s) == Den(k, rank, users, s)
  {
    var view := Full(k, rank, users);
    forall t: Sym
      ensures Compute(k, UserOf(minimal, t), t, view) == Compute(k, UserOf(users, t), t, view)
    {
      KeptComputation(k, rank, users, minimal, t);
    }
    SameValues(k, rank, users, minimal, s);
  }

  // ... provided no setting is lost, and only then.
  lemma RestoredOnlyIfNothingLost(k: Kconfig, rank: Rank, users: Users, minimal: Users, t: Sym)
    requires Acyclic(k, rank)
    requires IsMinimal(k, rank, users, minimal)
    requires forall s: Sym :: Den(k, rank, minimal, s) == Den(k, rank, users, s)
    ensures !Lost(k, UserOf(users, t), t, Full(k, rank, users))
  {
    DenUnfolds(k, rank, users, t);
    DenUnfolds(k, rank, minimal, t);
    ComputeSupport(k, UserOf(minimal, t), t, Full(k, rank, minimal), Full(k, rank, users), (u: Sym) => true);
    KeptComputation(k, rank, users, minimal, t);
  }

  // No number is selected, and a range in force is not empty and has no
  // negative hexadecimal bound.
  predicate PlainNumber(k: Kconfig, s: Sym, view: View) {
    && (!s.IsLogical() ==> DeclOf(k, s).revDep == None)
    && BoundsReadBack(k, s, view) && RangeNotEmpty(k, s, view)
  }

  // With modules off, and such numbers, every configuration is restored.
  lemma MinimalConfigWithoutModules(k: Kconfig, rank: Rank, users: Users, minimal: Users, s: Sym)
    requires Acyclic(k, rank) && k.modules == NO
    requires IsMinimal(k, rank, users, minimal)
    requires forall t: Sym :: PlainNumber(k, t, Full(k, rank, users))
    ensures Den(k, rank, minimal, s) == Den(k, rank, users, s)
  {
    forall t: Sym ensures !Lost(k, UserOf(users, t), t, Full(k, rank, users)) {
      PlainNumberKept(k, UserOf(users, t), t, Full(k, rank, users));
    }
    MinimalConfigRestores(k, rank, users, minimal, s);
  }

  lemma PlainNumberKept(k: Kconfig, user: Option<Value>, s: Sym, view: View)
    requires PlainNumber(k, s, view)
    ensures !NumberLost(k, user, s, view)
    ensures k.modules == NO ==> !Lost(k, user, s, view)
  {
    StableIsNotEmpty(k, s, if user.Some? then user.value.str else DefaultStr(k, s, view), view);
  }

  // The value of a visible number whose bounds can be read back, and that is
  // not selected, is restored exactly if its range is not empty, whatever the
  // setting and the default are.
  lemma EmptyRangeExact(k: Kconfig, user: Option<Value>, s: Sym, view: View, kept: Option<Value>)
    requires s.Type().Int? || s.Type().Hex?
    requires AttributesOf(k, s, view.env).visible != NO && DeclOf(k, s).revDep == None
    requires BoundsReadBack(k, s, view)
    requires kept.Some? <==> Emitted(k, user, s, view)
    requires kept.Some? ==> kept.value.str == Compute(k, user, s, view).str
    ensures Compute(k, kept, s, view) == Compute(k, user, s, view) <==> RangeNotEmpty(k, s, view)
  {
    SymbolRestored(k, user, s, view, kept);
    StableIsNotEmpty(k, s, if user.Some? then user.value.str else DefaultStr(k, s, view), view);
  }

  // A negative lower bound in hexadecimal loses every number below it, the
  // user's or the default, unless the range holds one number only or reaches
  // up to the greatest one.
  lemma NegativeBoundExact(k: Kconfig, user: Option<Value>, s: Sym, view: View, kept: Option<Value>)
    requires s.Type().Hex?
    requires AttributesOf(k, s, view.env).visible != NO && DeclOf(k, s).revDep == None
    requires kept.Some? <==> Emitted(k, user, s, view)
    requires kept.Some? ==> kept.value.str == Compute(k, user, s, view).str
    requires BoundsOf(k, s, view).Some? && BoundsOf(k, s, view).value.0 < 0
    requires Strtoll(if user.Some? then user.value.str else DefaultStr(k, s, view), 16) < BoundsOf(k, s, view).value.0
    ensures var (lo, hi) := BoundsOf(k, s, view).value;
            Compute(k, kept, s, view) == Compute(k, user, s, view) <==> lo == hi || hi == MaxLong
  {
    SymbolRestored(k, user, s, view, kept);
  }

  // ---- A configuration that is not restored ----

  const A := Config("A", Tristate, false)

  // A can be set to m only, is y by default, and is selected as m.
  const Selected := Kconfig(
    map[A := Decl([None], [Some(Var(SymMod))], [Default(Var(SymYes), None)], [], [], Some(Var(SymMod)), None)], YES)

  lemma SettingIsLost()
    ensures Acyclic(Selected, ConstantsFirst)
    ensures var users: Users := map[A := Value(MOD, "n")];
            && SettingLost(Selected, UserOf(users, A), A, Full(Selected, ConstantsFirst, users))
            && !Emitted(Selected, UserOf(users, A), A, Full(Selected, ConstantsFirst, users))
            && Den(Selected, ConstantsFirst, users, A).tri == MOD
            && Den(Selected, ConstantsFirst, map[], A).tri == YES
  {
    var users: Users := map[A := Value(MOD, "n")];
    assert Acyclic(Selected, ConstantsFirst);
    SelectedValue(users);
    SelectedValue(map[]);
  }

  lemma SelectedValue(users: Users)
    requires Acyclic(Selected, ConstantsFirst)
    ensures var env := Full(Selected, ConstantsFirst, users).env;
            && AttributesOf(Selected, A, env) == Attributes(MOD, YES, MOD, NO)
            && DefaultTri(Selected, A, env) == YES
            && Den(Selected, ConstantsFirst, users, A).tri == TriValue(Selected, UserOf(users, A), A, env)
  {
    var env := Full(Selected, ConstantsFirst, users).env;
    DenUnfolds(Selected, ConstantsFirst, users, A);
    assert env.tri(SymMod) == MOD && env.tri(SymYes) == YES;
    var p, d := Some(Var(SymMod)), Default(Var(SymYes), None);
    assert EvalCond(p, env) == MOD && EvalCond(d.cond, env) == YES;
    assert AnyPrompt([p], env) == Max(EvalCond(p, env), AnyPrompt([p][1..], env));
    assert FirstDefault([d], env) == Some(d);
    var es: seq<Option<Expr>> := [None];
    assert DirDep(es) == AllocOr(DirDep(es[..0]), None) == None;
  }
}
