// What the values of symbols are, told by the conditions of their properties.
module SymbolValues {
  import opened Tristate
  import opened Exprs
  import opened MenuDependencies
  import opened Numerals
  import opened Comparisons
  import opened Symbols
  import opened SymbolLaws
  import opened StringSettings
  import opened Defconfig

  // ---- Comparing symbols ----

  // Two int symbols, or an int symbol and a constant, whose strings are
  // numbers: each relation holds exactly if it does between the numbers.
  lemma NumbersInFull(k: Kconfig, rank: Rank, users: Users, a: Sym, b: Sym)
    requires Acyclic(k, rank) && a.Type().Int? && (b.Type().Int? || b.Type().Unknown?)
    requires IsNumber(Den(k, rank, users, a).str, 10)
    requires IsNumber(Den(k, rank, users, b).str, if b.Type().Int? then 10 else 0)
    ensures var env := Full(k, rank, users).env;
            var v, w := Strtoll(Den(k, rank, users, a).str, 10), Strtoll(Den(k, rank, users, b).str, if b.Type().Int? then 10 else 0);
            && (Eval(Cmp(Lt, a, b), env) == YES <==> v < w) && (Eval(Cmp(Le, a, b), env) == YES <==> v <= w)
            && (Eval(Cmp(Gt, a, b), env) == YES <==> v > w) && (Eval(Cmp(Ge, a, b), env) == YES <==> v >= w)
            && (Eval(Cmp(Eq, a, b), env) == YES <==> v == w) && (Eval(Cmp(Neq, a, b), env) == YES <==> v != w)
  {
    var env := Full(k, rank, users).env;
    var x, y := Den(k, rank, users, a).str, Den(k, rank, users, b).str;
    WholeNumbersOrder(x, y);
    assert env.cmp(a, b) == Compare(a.Type(), x, b.Type(), y);
    RelationsOfNumbers(a, b, env, Strtoll(x, 10), Strtoll(y, if b.Type().Int? then 10 else 0));
  }

  // A symbol without a type stands for its name, and is n.
  lemma UntypedValue(k: Kconfig, rank: Rank, users: Users, s: Sym)
    requires Acyclic(k, rank) && s.Config? && (s.ty.Unknown? || s.ty.Other?)
    ensures Den(k, rank, users, s) == Value(NO, s.name)
  {
  }

  // ---- Prompts ----

  // The greatest condition of the prompts.
  ghost predicate IsGreatest(ps: seq<Option<Expr>>, env: Env, t: Tri) {
    && (forall i :: 0 <= i < |ps| ==> EvalCond(ps[i], env) <= t)
    && (t == NO || exists i :: 0 <= i < |ps| && EvalCond(ps[i], env) == t)
  }

  lemma {:induction false} GreatestPrompt(ps: seq<Option<Expr>>, env: Env)
    ensures IsGreatest(ps, env, AnyPrompt(ps, env))
  {
    if ps != [] {
      var rest := ps[1..];
      GreatestPrompt(rest, env);
      assert forall i :: 0 < i < |ps| ==> ps[i] == rest[i - 1];
      var t := AnyPrompt(rest, env);
      if t != NO {
        var i :| 0 <= i < |rest| && EvalCond(rest[i], env) == t;
        assert EvalCond(ps[i + 1], env) == t;
      }
    }
  }

  // A symbol is as visible as its best prompt; m counts as y unless the symbol
  // is tristate and modules are on.
  lemma VisibilityExact(k: Kconfig, rank: Rank, users: Users, s: Sym, t: Tri)
    requires Acyclic(k, rank) && IsGreatest(DeclOf(k, s).prompts, Full(k, rank, users).env, t)
    ensures AttributesIn(k, rank, users, s).visible ==
            if t == MOD && !(s.Type().Tristate? && k.modules != NO) then YES else t
  {
    var ps, env := DeclOf(k, s).prompts, Full(k, rank, users).env;
    GreatestPrompt(ps, env);
    GreatestIsUnique(ps, env, t, AnyPrompt(ps, env));
  }

  lemma GreatestIsUnique(ps: seq<Option<Expr>>, env: Env, t: Tri, u: Tri)
    requires IsGreatest(ps, env, t) && IsGreatest(ps, env, u)
    ensures t == u
  {
  }

  // ---- Defaults ----

  // The first default whose condition is not n.
  ghost predicate IsFirstDefault(ds: seq<Default>, env: Env, i: nat) {
    && i < |ds| && EvalCond(ds[i].cond, env) != NO
    && forall j :: 0 <= j < i ==> EvalCond(ds[j].cond, env) == NO
  }

  ghost predicate NoDefault(ds: seq<Default>, env: Env) {
    forall j :: 0 <= j < |ds| ==> EvalCond(ds[j].cond, env) == NO
  }

  lemma {:induction false} FirstDefaultIs(ds: seq<Default>, env: Env)
    ensures forall i: nat :: IsFirstDefault(ds, env, i) ==> FirstDefault(ds, env) == Some(ds[i])
    ensures NoDefault(ds, env) ==> FirstDefault(ds, env) == None
  {
    if ds != [] {
      var rest := ds[1..];
      FirstDefaultIs(rest, env);
      forall i: nat | IsFirstDefault(ds, env, i) ensures FirstDefault(ds, env) == Some(ds[i]) {
        if i > 0 {
          assert IsFirstDefault(rest, env, i - 1) by {
            assert forall j :: 0 <= j < i - 1 ==> rest[j] == ds[j + 1];
          }
        }
      }
      if NoDefault(ds, env) {
        assert forall j :: 0 <= j < |rest| ==> rest[j] == ds[j + 1];
      }
    }
  }

  // What the defaults contribute to a bool or tristate symbol: the value of the
  // first one in force, but no more than its condition.
  ghost predicate DefaultGives(ds: seq<Default>, env: Env, t: Tri) {
    || (NoDefault(ds, env) && t == NO)
    || exists i: nat {:trigger IsFirstDefault(ds, env, i)} ::
         IsFirstDefault(ds, env, i) && t == Min(Eval(ds[i].value, env), EvalCond(ds[i].cond, env))
  }

  // The value of a bool or tristate symbol: what the user has set, as far as
  // it is visible; else the default or what implies it, whichever is more; in
  // any case at least what selects it. m is raised to y for a symbol that acts
  // as bool or is implied as y.
  lemma LogicalValue(k: Kconfig, rank: Rank, users: Users, s: Sym, default: Tri)
    requires Acyclic(k, rank) && s.IsLogical()
    requires DefaultGives(DeclOf(k, s).defaults, Full(k, rank, users).env, default)
    ensures var a := AttributesIn(k, rank, users, s);
            var chosen := if a.visible != NO && s in users then Min(users[s].tri, a.visible) else Max(default, a.implied);
            var t := Max(chosen, a.rev);
            Den(k, rank, users, s) ==
            Value(if t == MOD && (s.Type().Boolean? || k.modules == NO || a.implied == YES) then YES else t, "n")
  {
    DenUnfolds(k, rank, users, s);
    FirstDefaultIs(DeclOf(k, s).defaults, Full(k, rank, users).env);
  }

  // In particular without setting, select and imply: the default in force, or n.
  lemma DefaultValue(k: Kconfig, rank: Rank, users: Users, s: Sym, i: nat)
    requires Acyclic(k, rank) && s.IsLogical()
    requires var a := AttributesIn(k, rank, users, s);
             (a.visible == NO || s !in users) && a.rev == NO && a.implied == NO
    ensures var ds, env := DeclOf(k, s).defaults, Full(k, rank, users).env;
            && (NoDefault(ds, env) ==> Den(k, rank, users, s).tri == NO)
            && (IsFirstDefault(ds, env, i) ==>
                  var t := Min(Eval(ds[i].value, env), EvalCond(ds[i].cond, env));
                  Den(k, rank, users, s).tri == if t == MOD && (s.Type().Boolean? || k.modules == NO) then YES else t)
  {
    var ds, env := DeclOf(k, s).defaults, Full(k, rank, users).env;
    if NoDefault(ds, env) {
      LogicalValue(k, rank, users, s, NO);
    } else if IsFirstDefault(ds, env, i) {
      LogicalValue(k, rank, users, s, Min(Eval(ds[i].value, env), EvalCond(ds[i].cond, env)));
    }
  }

  // What selects and implies a symbol, and its direct dependencies: m counts as
  // y for a symbol that acts as bool; nothing implies a symbol whose direct
  // dependencies are n.
  lemma ReverseExact(k: Kconfig, rank: Rank, users: Users, s: Sym)
    requires Acyclic(k, rank)
    ensures var a, d, env := AttributesIn(k, rank, users, s), DeclOf(k, s), Full(k, rank, users).env;
            var bool' := s.Type().Boolean? || (s.Type().Tristate? && k.modules == NO);
            && a.rev == (if d.revDep == None then NO else Raised(bool', Eval(d.revDep.value, env)))
            && a.implied == (if d.implied == None || a.dir == NO then NO else Raised(bool', Eval(d.implied.value, env)))
            && (a.dir == NO <==> DirDep(d.entries).Some? && Eval(DirDep(d.entries).value, env) == NO)
  {
  }

  function Raised(b: bool, t: Tri): Tri {
    if b && t == MOD then YES else t
  }

  // The direct dependencies are n exactly if some entry has a condition, and
  // those that have are n.
  lemma {:induction false} DirDepExact(es: seq<Option<Expr>>, env: Env)
    ensures DirDep(es).None? <==> forall i :: 0 <= i < |es| ==> es[i].None?
    ensures DirDep(es).Some? ==>
              && (forall i :: 0 <= i < |es| && es[i].Some? ==> Eval(es[i].value, env) <= Eval(DirDep(es).value, env))
              && exists i :: 0 <= i < |es| && es[i].Some? && Eval(es[i].value, env) == Eval(DirDep(es).value, env)
  {
    if es != [] {
      var init, last := es[..|es| - 1], es[|es| - 1];
      DirDepExact(init, env);
      assert forall i :: 0 <= i < |init| ==> init[i] == es[i];
      if init == [] || DirDep(init).None? {
        assert last.Some? ==> es[|es| - 1].Some?;
      } else {
        var i :| 0 <= i < |init| && init[i].Some? && Eval(init[i].value, env) == Eval(DirDep(init).value, env);
        assert es[i] == init[i];
      }
    }
  }

  // ---- Strings and numbers ----

  // What the defaults contribute to a string or number: the string of the
  // symbol that is the first one in force.
  ghost predicate DefaultReads(ds: seq<Default>, view: View, str: string) {
    || (NoDefault(ds, view.env) && str == "")
    || exists i: nat {:trigger IsFirstDefault(ds, view.env, i)} ::
         IsFirstDefault(ds, view.env, i) && str == if ds[i].value.Var? then view.str(ds[i].value.sym) else ""
  }

  // The value of a string or number: what the user has set if it is visible,
  // else the default, clamped to the range in force.
  lemma StringValue(k: Kconfig, rank: Rank, users: Users, s: Sym, default: string)
    requires Acyclic(k, rank) && (s.Type().String? || s.Type().Int? || s.Type().Hex?)
    requires DefaultReads(DeclOf(k, s).defaults, Full(k, rank, users), default)
    ensures var view := Full(k, rank, users);
            var str := if AttributesIn(k, rank, users, s).visible != NO && s in users then users[s].str else default;
            Den(k, rank, users, s) == Value(NO, Clamp(k, s, str, view))
    ensures StringDefault(k, s, Full(k, rank, users)) == default
  {
    DenUnfolds(k, rank, users, s);
    FirstDefaultIs(DeclOf(k, s).defaults, Full(k, rank, users).env);
  }

  // ---- Ranges ----

  // The first range whose condition is not n.
  ghost predicate IsFirstRange(rs: seq<Range>, env: Env, i: nat) {
    && i < |rs| && EvalCond(rs[i].cond, env) != NO
    && forall j :: 0 <= j < i ==> EvalCond(rs[j].cond, env) == NO
  }

  lemma {:induction false} FirstRangeIs(rs: seq<Range>, env: Env)
    ensures forall i: nat :: IsFirstRange(rs, env, i) ==> FirstRange(rs, env) == Some(rs[i])
    ensures (forall j :: 0 <= j < |rs| ==> EvalCond(rs[j].cond, env) == NO) ==> FirstRange(rs, env) == None
  {
    if rs != [] {
      var rest := rs[1..];
      FirstRangeIs(rest, env);
      assert forall j :: 0 <= j < |rest| ==> rest[j] == rs[j + 1];
      forall i: nat | IsFirstRange(rs, env, i) ensures FirstRange(rs, env) == Some(rs[i]) {
        if i > 0 {
          assert IsFirstRange(rest, env, i - 1);
        }
      }
    }
  }

  // A bound is read with its own base if it is a number, else with that of the
  // symbol it bounds.
  function BoundIn(b: Sym, s: Sym, view: View): int {
    Strtoll(view.str(b), if b.Type().Int? then 10 else if b.Type().Hex? || s.Type().Hex? then 16 else 10)
  }

  // With bounds that can be read back and are not the wrong way round, the
  // number of the clamped string is the one in range that is nearest.
  lemma ClampsToNearest(k: Kconfig, s: Sym, str: string, view: View, i: nat)
    requires s.Type().Int? || s.Type().Hex?
    requires IsFirstRange(DeclOf(k, s).ranges, view.env, i)
    requires BoundsReadBack(k, s, view) && RangeNotEmpty(k, s, view)
    ensures var r := DeclOf(k, s).ranges[i];
            var lo, hi := BoundIn(r.lo, s, view), BoundIn(r.hi, s, view);
            var base := if s.Type().Hex? then 16 else 10;
            var v := Strtoll(str, base);
            && Strtoll(Clamp(k, s, str, view), base) == (if v < lo then lo else if v > hi then hi else v)
            && (lo <= v <= hi ==> Clamp(k, s, str, view) == str)
  {
    FirstRangeIs(DeclOf(k, s).ranges, view.env);
    var (lo, hi) := BoundsOf(k, s, view).value;
    ClampIs(k, s, str, lo, hi, view);
    ShownReadsBack(s, lo);
    ShownReadsBack(s, hi);
  }

  // A number without a range in force is left as it is.
  lemma NoRange(k: Kconfig, s: Sym, str: string, view: View)
    requires forall j :: 0 <= j < |DeclOf(k, s).ranges| ==> EvalCond(DeclOf(k, s).ranges[j].cond, view.env) == NO
    ensures Clamp(k, s, str, view) == str
  {
    FirstRangeIs(DeclOf(k, s).ranges, view.env);
  }

  // ---- What is emitted ----

  // A changeable bool or tristate symbol is emitted exactly if its value is not
  // the one it has without a setting.
  lemma LogicalEmitted(k: Kconfig, user: Option<Value>, s: Sym, view: View)
    requires s.IsLogical()
    ensures var a := AttributesOf(k, s, view.env);
            Emitted(k, user, s, view) <==>
            a.visible > a.rev && Compute(k, user, s, view).tri != Compute(k, None, s, view).tri
  {
    DefaultsAgree(k, s, view);
    var v, w := Compute(k, user, s, view), Compute(k, None, s, view);
    if StringOf(k, s, v) == StringOf(k, s, w) {
      StringTellsValue(k, s, v, w);
    }
  }

  // A changeable string or number is emitted exactly if it is not what its
  // default reads.
  lemma StringEmitted(k: Kconfig, user: Option<Value>, s: Sym, view: View, default: string)
    requires s.Type().String? || s.Type().Int? || s.Type().Hex?
    requires DefaultReads(DeclOf(k, s).defaults, view, default)
    ensures var a := AttributesOf(k, s, view.env);
            Emitted(k, user, s, view) <==> a.visible > a.rev && Compute(k, user, s, view).str != default
  {
    FirstDefaultIs(DeclOf(k, s).defaults, view.env);
  }
}
