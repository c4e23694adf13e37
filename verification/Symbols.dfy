// The value of a configuration symbol: what sym_calc_value computes, as a
// function of the user's settings, for configurations without choices.
module Symbols {
  import opened Tristate
  import opened Exprs
  import opened MenuDependencies
  import opened Numerals
  import opened Comparisons

  datatype Default = Default(value: Expr, cond: Option<Expr>)

  datatype Range = Range(lo: Sym, hi: Sym, cond: Option<Expr>)

  // What the finalised menus say of a symbol: the dependency of each of its
  // entries; its properties, in the order they are stored, with the conditions
  // of its implies; and what selects and implies the symbol itself.
  datatype Decl = Decl(entries: seq<Option<Expr>>, prompts: seq<Option<Expr>>, defaults: seq<Default>,
                       ranges: seq<Range>, implies: seq<Option<Expr>>, revDep: Option<Expr>, implied: Option<Expr>)

  // The current tristate and the current string of a symbol.
  datatype Value = Value(tri: Tri, str: string)

  // A configuration, with the value of MODULES taken as given.
  datatype Kconfig = Kconfig(decls: map<Sym, Decl>, modules: Tri)

  // What an evaluation sees of the other symbols.
  datatype View = View(env: Env, str: Sym -> string)

  const NoDecl := Decl([], [], [], [], [], None, None)

  function DeclOf(k: Kconfig, s: Sym): Decl {
    if s in k.decls then k.decls[s] else NoDecl
  }

  // The direct dependencies: the entries', or-ed as menu_finalize meets them.
  function DirDep(entries: seq<Option<Expr>>): Option<Expr> {
    if entries == [] then None else AllocOr(DirDep(entries[..|entries| - 1]), entries[|entries| - 1])
  }

  // sym_get_type(sym) == S_BOOLEAN
  predicate ActsBool(k: Kconfig, s: Sym) {
    s.Type().Boolean? || (s.Type().Tristate? && k.modules == NO)
  }

  function Promote(k: Kconfig, s: Sym, t: Tri): Tri {
    if t == MOD && ActsBool(k, s) then YES else t
  }

  // ---- sym_calc_visibility ----

  function AnyPrompt(prompts: seq<Option<Expr>>, env: Env): Tri {
    if prompts == [] then NO else Max(EvalCond(prompts[0], env), AnyPrompt(prompts[1..], env))
  }

  // What the prompts from position i on contribute.
  function PromptsFrom(ps: seq<Option<Expr>>, i: nat, env: Env): Tri
    requires i <= |ps|
  {
    AnyPrompt(ps[i..], env)
  }

  lemma PromptsStep(ps: seq<Option<Expr>>, i: nat, env: Env)
    requires i <= |ps|
    ensures PromptsFrom(ps, 0, env) == AnyPrompt(ps, env)
    ensures PromptsFrom(ps, i, env) == if i == |ps| then NO else Max(EvalCond(ps[i], env), PromptsFrom(ps, i + 1, env))
  {
    assert ps[0..] == ps;
    assert i < |ps| ==> ps[i..][1..] == ps[i + 1..];
  }

  function PromoteVisible(k: Kconfig, s: Sym, t: Tri): Tri {
    if t == MOD && (!s.Type().Tristate? || k.modules == NO) then YES else t
  }

  datatype Attributes = Attributes(visible: Tri, dir: Tri, rev: Tri, implied: Tri)

  function AttributesOf(k: Kconfig, s: Sym, env: Env): Attributes {
    var d := DeclOf(k, s);
    var dir := Promote(k, s, EvalCond(DirDep(d.entries), env));
    Attributes(
      PromoteVisible(k, s, AnyPrompt(d.prompts, env)),
      dir,
      Promote(k, s, EvalReverse(d.revDep, env)),
      Promote(k, s, if dir != NO then EvalReverse(d.implied, env) else NO))
  }

  // ---- sym_get_default_prop, sym_get_range_prop ----

  function FirstDefault(ds: seq<Default>, env: Env): Option<Default> {
    if ds == [] then None
    else if EvalCond(ds[0].cond, env) != NO then Some(ds[0])
    else FirstDefault(ds[1..], env)
  }

  function FirstRange(rs: seq<Range>, env: Env): Option<Range> {
    if rs == [] then None
    else if EvalCond(rs[0].cond, env) != NO then Some(rs[0])
    else FirstRange(rs[1..], env)
  }

  // What the search still finds from position i on.
  function DefaultFrom(ds: seq<Default>, i: nat, env: Env): Option<Default>
    requires i <= |ds|
  {
    FirstDefault(ds[i..], env)
  }

  function RangeFrom(rs: seq<Range>, i: nat, env: Env): Option<Range>
    requires i <= |rs|
  {
    FirstRange(rs[i..], env)
  }

  lemma DefaultStep(ds: seq<Default>, i: nat, env: Env)
    requires i <= |ds|
    ensures DefaultFrom(ds, 0, env) == FirstDefault(ds, env)
    ensures DefaultFrom(ds, i, env) ==
            if i == |ds| then None else if EvalCond(ds[i].cond, env) != NO then Some(ds[i]) else DefaultFrom(ds, i + 1, env)
  {
    assert ds[0..] == ds;
    assert i < |ds| ==> ds[i..][1..] == ds[i + 1..];
  }

  lemma RangeStep(rs: seq<Range>, i: nat, env: Env)
    requires i <= |rs|
    ensures RangeFrom(rs, 0, env) == FirstRange(rs, env)
    ensures RangeFrom(rs, i, env) ==
            if i == |rs| then None else if EvalCond(rs[i].cond, env) != NO then Some(rs[i]) else RangeFrom(rs, i + 1, env)
  {
    assert rs[0..] == rs;
    assert i < |rs| ==> rs[i..][1..] == rs[i + 1..];
  }

  function DefaultTri(k: Kconfig, s: Sym, env: Env): Tri {
    match FirstDefault(DeclOf(k, s).defaults, env)
    case None => NO
    case Some(d) => Min(Eval(d.value, env), EvalCond(d.cond, env))
  }

  // The default of a string or number must be a single symbol.
  function DefaultStr(k: Kconfig, s: Sym, view: View): string {
    match FirstDefault(DeclOf(k, s).defaults, view.env)
    case Some(Default(Var(ds), _)) => view.str(ds)
    case _ => ""
  }

  // ---- sym_validate_range ----

  function Base(s: Sym): nat {
    if s.Type().Hex? then 16 else 10
  }

  // sym_get_range_val
  function RangeValue(k: Kconfig, s: Sym, base: nat, view: View): int {
    Strtoll(view.str(s), if s.Type().Int? then 10 else if s.Type().Hex? then 16 else base)
  }

  function Clamp(k: Kconfig, s: Sym, str: string, view: View): string {
    if !s.Type().Int? && !s.Type().Hex? then str
    else
      match FirstRange(DeclOf(k, s).ranges, view.env)
      case None => str
      case Some(r) => ClampTo(k, s, r, str, view)
  }

  function ClampTo(k: Kconfig, s: Sym, r: Range, str: string, view: View): string {
    var v := Strtoll(str, Base(s));
    var lo, hi := RangeValue(k, r.lo, Base(s), view), RangeValue(k, r.hi, Base(s), view);
    if v < lo then Show(lo, s.Type().Hex?)
    else if v > hi then Show(hi, s.Type().Hex?)
    else str
  }

  // ---- sym_calc_value ----

  // What is done with the user's value, or with the default.
  function TriValue(k: Kconfig, user: Option<Value>, s: Sym, env: Env): Tri {
    var a := AttributesOf(k, s, env);
    var chosen :=
      if a.visible != NO && user.Some? then Min(user.value.tri, a.visible)
      else Max(DefaultTri(k, s, env), a.implied);
    var v := Max(chosen, a.rev);
    if v == MOD && (ActsBool(k, s) || a.implied == YES) then YES else v
  }

  function StrValue(k: Kconfig, user: Option<Value>, s: Sym, view: View): string {
    var visible := AttributesOf(k, s, view.env).visible;
    Clamp(k, s, if visible != NO && user.Some? then user.value.str else DefaultStr(k, s, view), view)
  }

  function Compute(k: Kconfig, user: Option<Value>, s: Sym, view: View): Value {
    match s.Type()
    case Boolean => Value(TriValue(k, user, s, view.env), "n")
    case Tristate => Value(TriValue(k, user, s, view.env), "n")
    case Int => Value(NO, StrValue(k, user, s, view))
    case Hex => Value(NO, StrValue(k, user, s, view))
    case String => Value(NO, StrValue(k, user, s, view))
    case _ => Constant(s)
  }

  // Symbols without a type, the constants among them, stand for their name.
  function Constant(s: Sym): Value {
    match s
    case SymYes => Value(YES, "y")
    case SymMod => Value(MOD, "m")
    case SymNo => Value(NO, "n")
    case Config(name, _, _) => Value(NO, name)
  }

  // sym_get_string_value
  function StringOf(k: Kconfig, s: Sym, v: Value): string {
    if s.IsLogical() then
      if v.tri == YES then "y" else if v.tri == MOD && k.modules != NO then "m" else "n"
    else
      v.str
  }

  // ---- What the value of a symbol refers to ----

  ghost predicate Mentions(d: Decl, t: Sym) {
    || (exists i :: 0 <= i < |d.prompts| && MentionsCond(d.prompts[i], t))
    || (exists i :: 0 <= i < |d.defaults| && (MentionsCond(d.defaults[i].cond, t) || Contains(d.defaults[i].value, t)))
    || (exists i :: 0 <= i < |d.ranges| && (MentionsCond(d.ranges[i].cond, t) || t == d.ranges[i].lo || t == d.ranges[i].hi))
    || MentionsCond(DirDep(d.entries), t) || MentionsCond(d.revDep, t) || MentionsCond(d.implied, t)
  }

  type Rank = Sym -> nat

  // No symbol refers to itself, directly or through others.
  ghost predicate Acyclic(k: Kconfig, rank: Rank) {
    forall s: Sym, t: Sym :: s in k.decls && Mentions(k.decls[s], t) ==> rank(t) < rank(s)
  }

  // Two views that show the same of the symbols t with P(t).
  ghost predicate Agree(v: View, w: View, p: Sym -> bool) {
    && (forall t: Sym :: p(t) ==> v.env.tri(t) == w.env.tri(t) && v.str(t) == w.str(t))
    && (forall a: Sym, b: Sym :: p(a) && p(b) ==> v.env.cmp(a, b) == w.env.cmp(a, b))
  }

  lemma CondSupport(e: Option<Expr>, v: View, w: View, p: Sym -> bool)
    requires Agree(v, w, p) && forall t: Sym :: MentionsCond(e, t) ==> p(t)
    ensures EvalCond(e, v.env) == EvalCond(e, w.env) && EvalReverse(e, v.env) == EvalReverse(e, w.env)
  {
    if e.Some? {
      ExprSupport(e.value, v, w, p);
    }
  }

  lemma ExprSupport(e: Expr, v: View, w: View, p: Sym -> bool)
    requires Agree(v, w, p) && forall t: Sym :: Contains(e, t) ==> p(t)
    ensures Eval(e, v.env) == Eval(e, w.env)
  {
    ContainsIsSupport(e, v.env, w.env);
  }

  lemma {:induction false} PromptsSupport(ps: seq<Option<Expr>>, v: View, w: View, p: Sym -> bool)
    requires Agree(v, w, p)
    requires forall i, t :: 0 <= i < |ps| && MentionsCond(ps[i], t) ==> p(t)
    ensures AnyPrompt(ps, v.env) == AnyPrompt(ps, w.env)
  {
    if ps != [] {
      CondSupport(ps[0], v, w, p);
      PromptsSupport(ps[1..], v, w, p);
    }
  }

  lemma {:induction false} DefaultsSupport(ds: seq<Default>, v: View, w: View, p: Sym -> bool)
    requires Agree(v, w, p)
    requires forall i, t :: 0 <= i < |ds| && MentionsCond(ds[i].cond, t) ==> p(t)
    ensures FirstDefault(ds, v.env) == FirstDefault(ds, w.env)
    ensures FirstDefault(ds, v.env).Some? ==> FirstDefault(ds, v.env).value in ds
  {
    if ds != [] {
      CondSupport(ds[0].cond, v, w, p);
      DefaultsSupport(ds[1..], v, w, p);
    }
  }

  lemma {:induction false} RangesSupport(rs: seq<Range>, v: View, w: View, p: Sym -> bool)
    requires Agree(v, w, p)
    requires forall i, t :: 0 <= i < |rs| && MentionsCond(rs[i].cond, t) ==> p(t)
    ensures FirstRange(rs, v.env) == FirstRange(rs, w.env)
    ensures FirstRange(rs, v.env).Some? ==> FirstRange(rs, v.env).value in rs
  {
    if rs != [] {
      CondSupport(rs[0].cond, v, w, p);
      RangesSupport(rs[1..], v, w, p);
    }
  }

  // The value of a symbol depends on the symbols mentioned and on nothing else.
  lemma ComputeSupport(k: Kconfig, user: Option<Value>, s: Sym, v: View, w: View, p: Sym -> bool)
    requires Agree(v, w, p)
    requires forall t: Sym :: Mentions(DeclOf(k, s), t) ==> p(t)
    ensures Compute(k, user, s, v) == Compute(k, user, s, w)
    ensures AttributesOf(k, s, v.env) == AttributesOf(k, s, w.env)
  {
    AttributesSupport(k, s, v, w, p);
    DefaultValueSupport(k, s, v, w, p);
    ClampSupport(k, s, if user.Some? then user.value.str else "", v, w, p);
    ClampSupport(k, s, DefaultStr(k, s, v), v, w, p);
  }

  lemma AttributesSupport(k: Kconfig, s: Sym, v: View, w: View, p: Sym -> bool)
    requires Agree(v, w, p)
    requires forall t: Sym :: Mentions(DeclOf(k, s), t) ==> p(t)
    ensures AttributesOf(k, s, v.env) == AttributesOf(k, s, w.env)
  {
    var d := DeclOf(k, s);
    PromptsSupport(d.prompts, v, w, p);
    CondSupport(DirDep(d.entries), v, w, p);
    CondSupport(d.revDep, v, w, p);
    CondSupport(d.implied, v, w, p);
  }

  lemma DefaultValueSupport(k: Kconfig, s: Sym, v: View, w: View, p: Sym -> bool)
    requires Agree(v, w, p)
    requires forall t: Sym :: Mentions(DeclOf(k, s), t) ==> p(t)
    ensures DefaultTri(k, s, v.env) == DefaultTri(k, s, w.env)
    ensures DefaultStr(k, s, v) == DefaultStr(k, s, w)
  {
    var ds := DeclOf(k, s).defaults;
    DefaultsSupport(ds, v, w, p);
    var first := FirstDefault(ds, v.env);
    if first.Some? {
      var i :| 0 <= i < |ds| && ds[i] == first.value;
      ExprSupport(ds[i].value, v, w, p);
      CondSupport(ds[i].cond, v, w, p);
    }
  }

  lemma ClampSupport(k: Kconfig, s: Sym, str: string, v: View, w: View, p: Sym -> bool)
    requires Agree(v, w, p)
    requires forall t: Sym :: Mentions(DeclOf(k, s), t) ==> p(t)
    ensures Clamp(k, s, str, v) == Clamp(k, s, str, w)
  {
    var rs := DeclOf(k, s).ranges;
    RangesSupport(rs, v, w, p);
    var first := FirstRange(rs, v.env);
    if first.Some? {
      var i :| 0 <= i < |rs| && rs[i] == first.value;
      assert Mentions(DeclOf(k, s), rs[i].lo) && Mentions(DeclOf(k, s), rs[i].hi);
    }
  }

  // ---- The values of a whole configuration ----

  type Users = map<Sym, Value>

  function UserOf(users: Users, s: Sym): Option<Value> {
    if s in users then Some(users[s]) else None
  }

  ghost function Below(k: Kconfig, rank: Rank, users: Users, bound: nat): View
    requires Acyclic(k, rank)
    decreases bound, 0
  {
    View(
      Env(
        (t: Sym) => if rank(t) < bound then Den(k, rank, users, t).tri else Constant(t).tri,
        (a: Sym, b: Sym) =>
          if rank(a) < bound && rank(b) < bound then
            Compare(a.Type(), StringOf(k, a, Den(k, rank, users, a)), b.Type(), StringOf(k, b, Den(k, rank, users, b)))
          else Comparison(0, true)),
      (t: Sym) => if rank(t) < bound then Den(k, rank, users, t).str else "")
  }

  // The value of s under the user settings, by recursion along the ranks.
  ghost function Den(k: Kconfig, rank: Rank, users: Users, s: Sym): Value
    requires Acyclic(k, rank)
    decreases rank(s), 1
  {
    Compute(k, UserOf(users, s), s, Below(k, rank, users, rank(s)))
  }

  // What one sees when all symbols have their values.
  ghost function Full(k: Kconfig, rank: Rank, users: Users): View
    requires Acyclic(k, rank)
  {
    View(
      Env(
        (t: Sym) => Den(k, rank, users, t).tri,
        (a: Sym, b: Sym) =>
          Compare(a.Type(), StringOf(k, a, Den(k, rank, users, a)), b.Type(), StringOf(k, b, Den(k, rank, users, b)))),
      (t: Sym) => Den(k, rank, users, t).str)
  }

  // Every symbol has the value computed from the values of all symbols.
  lemma DenUnfolds(k: Kconfig, rank: Rank, users: Users, s: Sym)
    requires Acyclic(k, rank)
    ensures Den(k, rank, users, s) == Compute(k, UserOf(users, s), s, Full(k, rank, users))
  {
    var p := (t: Sym) => rank(t) < rank(s);
    ComputeSupport(k, UserOf(users, s), s, Below(k, rank, users, rank(s)), Full(k, rank, users), p);
  }

  // If no symbol's own computation notices the change of the settings, no
  // value changes.
  lemma {:induction false} SameValues(k: Kconfig, rank: Rank, users: Users, users': Users, s: Sym)
    requires Acyclic(k, rank)
    requires forall t: Sym ::
               Compute(k, UserOf(users', t), t, Full(k, rank, users)) == Compute(k, UserOf(users, t), t, Full(k, rank, users))
    ensures Den(k, rank, users', s) == Den(k, rank, users, s)
    decreases rank(s)
  {
    forall t: Sym | rank(t) < rank(s) ensures Den(k, rank, users', t) == Den(k, rank, users, t) {
      SameValues(k, rank, users, users', t);
    }
    var p := (t: Sym) => rank(t) < rank(s);
    ComputeSupport(k, UserOf(users', s), s, Below(k, rank, users', rank(s)), Full(k, rank, users), p);
    DenUnfolds(k, rank, users, s);
  }
}
