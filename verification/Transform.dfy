// Negation pushing, comparison rewriting and their variants.
module Transformation {
  import opened Tristate
  import opened Exprs
  import opened Duplicates

  // The measure under which expr_transform terminates: a negation doubles,
  // a comparison weighs as much as a negated symbol.
  function Weight(e: Expr): (w: nat)
    ensures w > 0
  {
    match e
    case Var(_) => 1
    case Cmp(_, _, _) => 2
    case Not(a) => 2 * Weight(a)
    case Bin(_, l, r) => 1 + Weight(l) + Weight(r)
  }

  lemma DeMorganLighter(e: Expr)
    requires e.Bin?
    ensures Weight(Bin(e.op.Dual(), Not(e.left), Not(e.right))) < Weight(Not(e))
  {
    assert Weight(Not(e.left)) == 2 * Weight(e.left) && Weight(Not(e.right)) == 2 * Weight(e.right);
  }

  // Comparison of a bool symbol with y, m or n.
  function TransformCompare(e: Expr): Expr
    requires e.Cmp?
  {
    if !e.rel.IsEquality() || !e.lhs.Type().Boolean? || e.rhs.Config? then e
    else if e.rhs.SymMod? then Var(if e.rel.Eq? then SymNo else SymYes)
    else if e.rhs.SymNo? == e.rel.Eq? then Not(Var(e.lhs))
    else Var(e.lhs)
  }

  // expr_transform; the two De Morgan steps start over on a tree whose
  // operands have been transformed already.
  function Transform(e: Expr): (r: Expr)
    ensures Weight(r) <= Weight(e)
    decreases Weight(e)
  {
    match e
    case Var(_) => e
    case Cmp(_, _, _) => TransformCompare(e)
    case Bin(op, l, r) => Bin(op, Transform(l), Transform(r))
    case Not(a) =>
      match Transform(a)
      case Not(b) => Transform(b)
      case Cmp(rel, s, t) => Cmp(rel.Negate(), s, t)
      case Bin(op, l, r) =>
        DeMorganLighter(Transform(a));
        Transform(Bin(op.Dual(), Not(l), Not(r)))
      case Var(s) =>
        match s
        case SymYes => Var(SymNo)
        case SymMod => Var(SymMod)
        case SymNo => Var(SymYes)
        case Config(_, _, _) => Not(Var(s))
  }

  // Every ordered comparison in e is between comparable values.
  ghost predicate Comparable(e: Expr, env: Env) {
    match e
    case Var(_) => true
    case Not(a) => Comparable(a, env)
    case Bin(_, l, r) => Comparable(l, env) && Comparable(r, env)
    case Cmp(rel, a, b) => rel.IsEquality() || env.cmp(a, b).ordered
  }

  lemma {:induction false} TransformEval(e: Expr, env: Env)
    requires WellTyped(env) && Comparable(e, env)
    ensures Eval(Transform(e), env) == Eval(e, env)
    ensures Comparable(Transform(e), env)
    decreases Weight(e)
  {
    match e
    case Var(_) =>
    case Cmp(_, s, t) =>
    case Bin(_, l, r) =>
      TransformEval(l, env);
      TransformEval(r, env);
    case Not(a) =>
      TransformEval(a, env);
      match Transform(a)
      case Not(b) => TransformEval(b, env);
      case Cmp(_, _, _) =>
      case Bin(op, l, r) =>
        DeMorganLighter(Transform(a));
        TransformEval(Bin(op.Dual(), Not(l), Not(r)), env);
      case Var(_) =>
  }

  lemma {:induction false} TransformNoNew(e: Expr)
    ensures NoNew(e, Transform(e))
    decreases Weight(e)
  {
    match e
    case Var(_) =>
    case Cmp(_, _, _) =>
    case Bin(_, l, r) =>
      TransformNoNew(l);
      TransformNoNew(r);
    case Not(a) =>
      TransformNoNew(a);
      match Transform(a)
      case Not(b) => TransformNoNew(b);
      case Cmp(_, _, _) =>
      case Bin(op, l, r) =>
        DeMorganLighter(Transform(a));
        var e' := Bin(op.Dual(), Not(l), Not(r));
        assert forall t :: Contains(e', t) ==> Contains(Transform(a), t);
        TransformNoNew(e');
      case Var(_) =>
  }

  // Incomparable operands make every ordered comparison n, so for a negated
  // one comparability is exactly what it takes.
  lemma NegatedCompareExact(rel: Rel, a: Sym, b: Sym, env: Env)
    requires !rel.IsEquality()
    ensures var e := Not(Cmp(rel, a, b));
            Eval(Transform(e), env) == Eval(e, env) <==> env.cmp(a, b).ordered
  {
  }

  // ---- Normal form ----

  // A negation only stands above a symbol that is no constant, and no bool
  // symbol is tested for being or not being y, m or n.
  predicate Normal(e: Expr) {
    match e
    case Var(_) => true
    case Not(a) => a.Var? && a.sym.Config?
    case Bin(_, l, r) => Normal(l) && Normal(r)
    case Cmp(rel, s, c) => !((rel.Eq? || rel.Neq?) && s.Type().Boolean? && (c == SymYes || c == SymMod || c == SymNo))
  }

  // What becomes of the tests of a bool symbol.
  lemma BoolTests(s: Sym)
    requires s.Type().Boolean?
    ensures Transform(Cmp(Eq, s, SymYes)) == Var(s) == Transform(Cmp(Neq, s, SymNo))
    ensures Transform(Cmp(Eq, s, SymNo)) == Not(Var(s)) == Transform(Cmp(Neq, s, SymYes))
    ensures Transform(Cmp(Eq, s, SymMod)) == Var(SymNo) && Transform(Cmp(Neq, s, SymMod)) == Var(SymYes)
  {
  }

  lemma {:induction false} TransformNormal(e: Expr)
    ensures Normal(Transform(e))
    ensures Normal(e) ==> Transform(e) == e
    decreases Weight(e)
  {
    match e
    case Var(_) =>
    case Cmp(_, _, _) =>
      TransformedCompareNormal(e);
    case Bin(_, l, r) =>
      TransformNormal(l);
      TransformNormal(r);
    case Not(a) =>
      TransformNormal(a);
      match Transform(a)
      case Not(b) => TransformNormal(b);
      case Cmp(_, _, _) =>
      case Bin(op, l, r) =>
        DeMorganLighter(Transform(a));
        TransformNormal(Bin(op.Dual(), Not(l), Not(r)));
      case Var(_) =>
  }

  lemma TransformedCompareNormal(e: Expr)
    requires e.Cmp?
    ensures Normal(TransformCompare(e))
  {
    if TransformCompare(e).Not? {
      assert e.lhs.Type().Boolean?;
      assert e.lhs.Config?;
    }
  }

  lemma TransformIdempotent(e: Expr)
    ensures Transform(Transform(e)) == Transform(e)
  {
    TransformNormal(e);
    TransformNormal(Transform(e));
  }

  lemma {:induction false} NormalIsNnf(e: Expr)
    requires Normal(e)
    ensures Nnf(e)
  {
    match e
    case Bin(_, l, r) =>
      NormalIsNnf(l);
      NormalIsNnf(r);
    case _ =>
  }

  // ---- expr_trans_bool ----

  function TransBool(e: Expr): Expr {
    match e
    case Bin(op, l, r) => Bin(op, TransBool(l), TransBool(r))
    case Not(a) => Not(TransBool(a))
    case Cmp(rel, s, t) => if rel.Neq? && s.Type().Tristate? && t.SymNo? then Var(s) else e
    case Var(_) => e
  }

  // On a negation normal form the value may drop from y to m, but never to
  // or from n.
  lemma {:induction false} TransBoolEval(e: Expr, env: Env)
    requires WellTyped(env) && Nnf(e)
    ensures Eval(TransBool(e), env) <= Eval(e, env)
    ensures Eval(TransBool(e), env) == NO <==> Eval(e, env) == NO
  {
    match e
    case Bin(_, l, r) =>
      TransBoolEval(l, env);
      TransBoolEval(r, env);
    case Cmp(_, s, t) =>
    case _ =>
  }

  lemma {:induction false} TransBoolNoNew(e: Expr)
    ensures NoNew(e, TransBool(e))
  {
    match e
    case Not(a) =>
      TransBoolNoNew(a);
    case Bin(_, l, r) =>
      TransBoolNoNew(l);
      TransBoolNoNew(r);
    case _ =>
  }

  // Afterwards no tristate symbol is tested for not being n, and what has no
  // such test is left as it is.
  predicate NoTestForN(e: Expr) {
    match e
    case Var(_) => true
    case Not(a) => NoTestForN(a)
    case Bin(_, l, r) => NoTestForN(l) && NoTestForN(r)
    case Cmp(rel, s, c) => !(rel.Neq? && s.Type().Tristate? && c == SymNo)
  }

  lemma {:induction false} TransBoolRemovesTests(e: Expr)
    ensures NoTestForN(TransBool(e))
    ensures NoTestForN(e) ==> TransBool(e) == e
  {
    match e
    case Not(a) =>
      TransBoolRemovesTests(a);
    case Bin(_, l, r) =>
      TransBoolRemovesTests(l);
      TransBoolRemovesTests(r);
    case _ =>
  }

  // Under a negation that is not so: with a=m, !(a!=n) is n but !a is m.
  lemma TransBoolNeedsNnf(s: Sym, env: Env)
    requires WellTyped(env) && s.Type().Tristate? && env.tri(s) == MOD
    ensures Eval(Not(Cmp(Neq, s, SymNo)), env) == NO
    ensures Eval(TransBool(Not(Cmp(Neq, s, SymNo))), env) == MOD
  {
    assert env.cmp(s, SymNo).res != 0;
    assert TransBool(Not(Cmp(Neq, s, SymNo))) == Not(Var(s));
  }

  // ---- rewrite_m ----

  // m becomes m && MODULES.
  function RewriteM(e: Expr, modules: Sym): Expr {
    match e
    case Not(a) => Not(RewriteM(a, modules))
    case Bin(op, l, r) => Bin(op, RewriteM(l, modules), RewriteM(r, modules))
    case Var(s) => if s.SymMod? then Bin(AndOp, e, Var(modules)) else e
    case Cmp(_, _, _) => e
  }

  // Rewriting gives the value the expression has when the constant m itself
  // stands for min(m, MODULES).
  function WithModules(env: Env, modules: Sym): Env {
    env.(tri := (s: Sym) => ModuleValue(env, modules, s))
  }

  function ModuleValue(env: Env, modules: Sym, s: Sym): Tri {
    if s.SymMod? then Min(MOD, env.tri(modules)) else env.tri(s)
  }

  lemma {:induction false} RewriteMEval(e: Expr, modules: Sym, env: Env)
    requires WellTyped(env)
    ensures Eval(RewriteM(e, modules), env) == Eval(e, WithModules(env, modules))
    ensures Comparable(RewriteM(e, modules), env) <==> Comparable(e, env)
  {
    match e
    case Not(a) =>
      RewriteMEval(a, modules, env);
    case Bin(_, l, r) =>
      RewriteMEval(l, modules, env);
      RewriteMEval(r, modules, env);
    case _ =>
  }

  lemma {:induction false} RewriteMMentions(e: Expr, modules: Sym, t: Sym)
    requires Contains(RewriteM(e, modules), t)
    ensures Contains(e, t) || t == modules
  {
    match e
    case Not(a) =>
      RewriteMMentions(a, modules, t);
    case Bin(_, l, r) =>
      if Contains(RewriteM(l, modules), t) {
        RewriteMMentions(l, modules, t);
      } else {
        RewriteMMentions(r, modules, t);
      }
    case _ =>
  }
}
