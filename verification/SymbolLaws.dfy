// Laws of the symbol values.
module SymbolLaws {
  import opened Tristate
  import opened Exprs
  import opened MenuDependencies
  import opened MenuConditions
  import opened Comparisons
  import opened Symbols

  // A symbol of bool type is never m, and neither is a tristate symbol when
  // modules are off.
  lemma BoolNeverMod(k: Kconfig, rank: Rank, users: Users, s: Sym)
    requires Acyclic(k, rank) && s.IsLogical() && ActsBool(k, s)
    ensures Den(k, rank, users, s).tri != MOD
  {
  }

  // ---- Selects ----

  // The value is at least the reverse dependency, ...
  lemma ReverseDependencyHonoured(k: Kconfig, rank: Rank, users: Users, s: Sym)
    requires Acyclic(k, rank) && s.IsLogical()
    ensures Den(k, rank, users, s).tri >= EvalReverse(DeclOf(k, s).revDep, Full(k, rank, users).env)
  {
    DenUnfolds(k, rank, users, s);
  }

  // ... hence at least min(selector, condition) for every select the menus
  // recorded in it.
  lemma SelectHonoured(k: Kconfig, rank: Rank, users: Users, selector: Sym, p: Property, reverse: map<Sym, Expr>)
    requires Acyclic(k, rank) && p.target.IsLogical()
    requires Covered(reverse, selector, p)
    requires DeclOf(k, p.target).revDep == Some(reverse[p.target])
    ensures Den(k, rank, users, p.target).tri >=
            Min(Den(k, rank, users, selector).tri, EvalCond(p.visible, Full(k, rank, users).env))
  {
    ReverseDependencyHonoured(k, rank, users, p.target);
    var env := Full(k, rank, users).env;
    assert Eval(reverse[p.target], env) >= Min(env.tri(selector), EvalCond(p.visible, env));
  }

  // ---- Setting a value ----

  // sym_tristate_within_range, outside choices
  predicate WithinRange(k: Kconfig, s: Sym, a: Attributes, val: Tri) {
    && a.visible != NO
    && s.IsLogical()
    && !(ActsBool(k, s) && val == MOD)
    && a.visible > a.rev
    && !(a.implied == YES && val == MOD)
    && a.rev <= val <= a.visible
  }

  ghost function AttributesIn(k: Kconfig, rank: Rank, users: Users, s: Sym): Attributes
    requires Acyclic(k, rank)
  {
    AttributesOf(k, s, Full(k, rank, users).env)
  }

  // A user setting does not change what its own symbol refers to.
  lemma {:induction false} SettingIsLocal(k: Kconfig, rank: Rank, users: Users, s: Sym, v: Value, t: Sym)
    requires Acyclic(k, rank)
    requires rank(t) <= rank(s) && t != s
    ensures Den(k, rank, users[s := v], t) == Den(k, rank, users, t)
    decreases rank(t)
  {
    forall u: Sym | rank(u) < rank(t) ensures Den(k, rank, users[s := v], u) == Den(k, rank, users, u) {
      SettingIsLocal(k, rank, users, s, v, u);
    }
    var p := (u: Sym) => rank(u) < rank(t);
    ComputeSupport(k, UserOf(users, t), t, Below(k, rank, users[s := v], rank(t)), Below(k, rank, users, rank(t)), p);
  }

  lemma SettingKeepsAttributes(k: Kconfig, rank: Rank, users: Users, s: Sym, v: Value)
    requires Acyclic(k, rank)
    ensures Den(k, rank, users[s := v], s) == Compute(k, Some(v), s, Full(k, rank, users))
    ensures AttributesIn(k, rank, users[s := v], s) == AttributesIn(k, rank, users, s)
  {
    var users' := users[s := v];
    forall u: Sym | rank(u) < rank(s) ensures Den(k, rank, users', u) == Den(k, rank, users, u) {
      SettingIsLocal(k, rank, users, s, v, u);
    }
    var p := (u: Sym) => rank(u) < rank(s);
    DenUnfolds(k, rank, users', s);
    ComputeSupport(k, Some(v), s, Full(k, rank, users'), Full(k, rank, users), p);
  }

  // Only a changeable symbol can be set, that is one of which more is visible
  // than is selected; a value accepted is the value it then has; and the only
  // values refused for a changeable symbol that it would have had as well are
  // y where y is implied but only m is visible.
  lemma AcceptedSticks(k: Kconfig, rank: Rank, users: Users, s: Sym, val: Tri, str: string)
    requires Acyclic(k, rank) && s.IsLogical()
    ensures var a := AttributesIn(k, rank, users, s);
            var sticks := Den(k, rank, users[s := Value(val, str)], s).tri == val;
            && (WithinRange(k, s, a, val) ==> sticks && a.visible > a.rev)
            && (a.visible > a.rev ==>
                  (sticks <==> WithinRange(k, s, a, val) || (val == YES && a.visible == MOD && a.implied == YES)))
  {
    SettingKeepsAttributes(k, rank, users, s, Value(val, str));
  }

  // Setting the value a symbol already has does not invalidate anything in
  // the source.  This is right exactly unless y was reached by a default or
  // an imply although only m is visible.
  predicate CurrentIsStable(a: Attributes, current: Tri) {
    a.visible == MOD && current == YES ==> a.rev == YES || a.implied == YES
  }

  lemma SettingCurrentExact(k: Kconfig, rank: Rank, users: Users, s: Sym, str: string)
    requires Acyclic(k, rank) && s.IsLogical()
    ensures var a := AttributesIn(k, rank, users, s);
            var current := Den(k, rank, users, s).tri;
            Den(k, rank, users[s := Value(current, str)], s).tri == current <==> CurrentIsStable(a, current)
  {
    var current := Den(k, rank, users, s).tri;
    DenUnfolds(k, rank, users, s);
    SettingKeepsAttributes(k, rank, users, s, Value(current, str));
    SetAgain(k, s, UserOf(users, s), Full(k, rank, users).env, str);
  }

  lemma SetAgain(k: Kconfig, s: Sym, user: Option<Value>, env: Env, str: string)
    requires s.IsLogical()
    ensures var current := TriValue(k, user, s, env);
            TriValue(k, Some(Value(current, str)), s, env) == current <==> CurrentIsStable(AttributesOf(k, s, env), current)
  {
  }

  // A symbol that shows m only and is y by default: setting the y it has makes
  // it m.
  const ShownAsMod := Config("A", Tristate, false)

  const DefaultAbove := Kconfig(
    map[ShownAsMod := Decl([None], [Some(Var(SymMod))], [Default(Var(SymYes), None)], [], [], None, None)], YES)

  const ConstantsFirst: Rank := (s: Sym) => if s.Config? then 1 else 0

  lemma SettingCurrentChanges()
    ensures Acyclic(DefaultAbove, ConstantsFirst)
    ensures !CurrentIsStable(AttributesIn(DefaultAbove, ConstantsFirst, map[], ShownAsMod), YES)
    ensures Den(DefaultAbove, ConstantsFirst, map[], ShownAsMod).tri == YES
    ensures Den(DefaultAbove, ConstantsFirst, map[ShownAsMod := Value(YES, "n")], ShownAsMod).tri == MOD
  {
    assert Acyclic(DefaultAbove, ConstantsFirst);
    ShownAsModValue(map[]);
    ShownAsModValue(map[ShownAsMod := Value(YES, "n")]);
  }

  lemma ShownAsModValue(users: Users)
    requires Acyclic(DefaultAbove, ConstantsFirst)
    ensures var env := Full(DefaultAbove, ConstantsFirst, users).env;
            && AttributesOf(DefaultAbove, ShownAsMod, env) == Attributes(MOD, YES, NO, NO)
            && DefaultTri(DefaultAbove, ShownAsMod, env) == YES
            && Den(DefaultAbove, ConstantsFirst, users, ShownAsMod).tri ==
               TriValue(DefaultAbove, UserOf(users, ShownAsMod), ShownAsMod, env)
  {
    var env := Full(DefaultAbove, ConstantsFirst, users).env;
    DenUnfolds(DefaultAbove, ConstantsFirst, users, ShownAsMod);
    assert env.tri(SymMod) == MOD && env.tri(SymYes) == YES;
    var p, d := Some(Var(SymMod)), Default(Var(SymYes), None);
    assert EvalCond(p, env) == MOD && EvalCond(d.cond, env) == YES;
    assert AnyPrompt([p], env) == Max(EvalCond(p, env), AnyPrompt([p][1..], env));
    assert FirstDefault([d], env) == Some(d);
    var es: seq<Option<Expr>> := [None];
    assert DirDep(es) == AllocOr(DirDep(es[..0]), None) == None;
  }

  // ---- Defaults ----

  // sym_get_string_default, outside choices: the value is put together in a
  // different order than in sym_calc_value.
  function StringDefault(k: Kconfig, s: Sym, view: View): string {
    var a := AttributesOf(k, s, view.env);
    var v0 := Max(DefaultTri(k, s, view.env), a.rev);
    var v1 := if v0 == MOD && k.modules == NO then YES else v0;
    var v2 := if s.Type().Boolean? && v1 == MOD then YES else v1;
    var v3 := if v2 < a.implied then a.implied else v2;
    match s.Type()
    case Boolean => TriName(v3)
    case Tristate => TriName(v3)
    case Int => DefaultStr(k, s, view)
    case Hex => DefaultStr(k, s, view)
    case String => DefaultStr(k, s, view)
    case _ => ""
  }

  // The two computations of the default agree.
  lemma DefaultsAgree(k: Kconfig, s: Sym, view: View)
    requires s.IsLogical()
    ensures StringDefault(k, s, view) == StringOf(k, s, Compute(k, None, s, view))
  {
  }
}
