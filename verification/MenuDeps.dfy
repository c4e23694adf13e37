// Propagating dependencies from a menu node to its children.
module MenuDependencies {
  import opened Tristate
  import opened Exprs
  import opened ExprEquality
  import opened Duplicates
  import opened Transformation

  // A missing condition holds always.
  function EvalCond(e: Option<Expr>, env: Env): Tri {
    if e.None? then YES else Eval(e.value, env)
  }

  // A missing reverse dependency forces nothing.
  function EvalReverse(e: Option<Expr>, env: Env): Tri {
    if e.None? then NO else Eval(e.value, env)
  }

  predicate NnfCond(e: Option<Expr>) {
    e.Some? ==> Nnf(e.value)
  }

  ghost predicate ComparableCond(e: Option<Expr>, env: Env) {
    e.Some? ==> Comparable(e.value, env)
  }

  // expr_alloc_and, expr_alloc_or
  function AllocAnd(a: Option<Expr>, b: Option<Expr>): Option<Expr> {
    if a.None? then b else if b.None? then a else Some(Bin(AndOp, a.value, b.value))
  }

  function AllocOr(a: Option<Expr>, b: Option<Expr>): Option<Expr> {
    if a.None? then b else if b.None? then a else Some(Bin(OrOp, a.value, b.value))
  }

  lemma AllocAndEval(a: Option<Expr>, b: Option<Expr>, env: Env)
    ensures EvalCond(AllocAnd(a, b), env) == Min(EvalCond(a, env), EvalCond(b, env))
  {
  }

  lemma AllocOrEval(a: Option<Expr>, b: Option<Expr>, env: Env)
    ensures EvalReverse(AllocOr(a, b), env) == Max(EvalReverse(a, env), EvalReverse(b, env))
  {
  }

  function Rewrite(e: Option<Expr>, modules: Sym): Option<Expr> {
    if e.None? then None else Some(Transform(RewriteM(e.value, modules)))
  }

  lemma RewriteEval(e: Option<Expr>, modules: Sym, env: Env)
    requires WellTyped(env) && ComparableCond(e, env)
    ensures EvalCond(Rewrite(e, modules), env) == EvalCond(e, WithModules(env, modules))
    ensures NnfCond(Rewrite(e, modules))
  {
    if e.Some? {
      RewriteMEval(e.value, modules, env);
      TransformEval(RewriteM(e.value, modules), env);
      RewriteNnf(e, modules);
    }
  }

  lemma RewriteNnf(e: Option<Expr>, modules: Sym)
    ensures NnfCond(Rewrite(e, modules))
  {
    if e.Some? {
      TransformNormal(RewriteM(e.value, modules));
      NormalIsNnf(Transform(RewriteM(e.value, modules)));
    }
  }

  predicate MentionsCond(e: Option<Expr>, t: Sym) {
    e.Some? && Contains(e.value, t)
  }

  // The finalised condition mentions nothing but what the two conditions do,
  // MODULES, and y, m and n.
  ghost predicate AddsNone(parentDep: Option<Expr>, own: Option<Expr>, modules: Sym, r: Option<Expr>) {
    forall t: Sym :: t.Config? && MentionsCond(r, t) ==>
      MentionsCond(parentDep, t) || MentionsCond(own, t) || t == modules
  }

  lemma RewriteMentions(e: Option<Expr>, modules: Sym, t: Sym)
    requires t.Config? && MentionsCond(Rewrite(e, modules), t)
    ensures MentionsCond(e, t) || t == modules
  {
    TransformNoNew(RewriteM(e.value, modules));
    RewriteMMentions(e.value, modules, t);
  }

  // The finalised condition has, under every typed valuation, the value
  // min(parent condition, own condition with m standing for m && MODULES);
  // in no case is it more than the parent condition; and no two operands of it
  // can be joined any more.
  ghost predicate Inherits(parentDep: Option<Expr>, own: Option<Expr>, modules: Sym, r: Option<Expr>) {
    && AtMost(r, parentDep) && AddsNone(parentDep, own, modules, r) && SettledCond(r)
    && forall env: Env :: WellTyped(env) && ComparableCond(own, env) ==>
         EvalCond(r, env) == Min(EvalCond(parentDep, env), EvalCond(own, WithModules(env, modules)))
  }

  ghost predicate SettledCond(e: Option<Expr>) {
    e.Some? ==> Settled(e.value)
  }

  function TransBoolCond(e: Option<Expr>): Option<Expr> {
    if e.None? then None else Some(TransBool(e.value))
  }

  ghost predicate AtMost(a: Option<Expr>, b: Option<Expr>) {
    forall env: Env :: WellTyped(env) ==> EvalCond(a, env) <= EvalCond(b, env)
  }

  // For conditions of symbols that are not tristate only being n matters: it is
  // such a condition without tests for not being n.
  ghost predicate InheritsNonN(parentDep: Option<Expr>, own: Option<Expr>, modules: Sym, r: Option<Expr>) {
    && AtMost(r, parentDep) && AddsNone(parentDep, own, modules, r)
    && (exists s :: Inherits(parentDep, own, modules, s) && r == TransBoolCond(s))
    && forall env: Env :: WellTyped(env) && ComparableCond(own, env) ==>
         var m := Min(EvalCond(parentDep, env), EvalCond(own, WithModules(env, modules)));
         EvalCond(r, env) <= m && (EvalCond(r, env) == NO <==> m == NO)
  }

  // rewrite_m, expr_transform, expr_alloc_and, expr_eliminate_dups in a row.
  method Inherit(parentDep: Option<Expr>, own: Option<Expr>, modules: Sym) returns (r: Option<Expr>)
    requires NnfCond(parentDep)
    ensures Inherits(parentDep, own, modules, r)
    ensures NnfCond(r)
  {
    var all := AllocAnd(parentDep, Rewrite(own, modules));
    RewriteNnf(own, modules);
    r := all;
    if all.Some? {
      var e := EliminateDups(all.value);
      r := Some(e);
    }
    forall t: Sym | t.Config? && MentionsCond(r, t)
      ensures MentionsCond(parentDep, t) || MentionsCond(own, t) || t == modules
    {
      assert MentionsCond(all, t);
      if MentionsCond(Rewrite(own, modules), t) {
        RewriteMentions(own, modules, t);
      }
    }
    forall env: Env | WellTyped(env) ensures EvalCond(r, env) <= EvalCond(parentDep, env) {
      AllocAndEval(parentDep, Rewrite(own, modules), env);
    }
    forall env: Env | WellTyped(env) && ComparableCond(own, env)
      ensures EvalCond(r, env) == Min(EvalCond(parentDep, env), EvalCond(own, WithModules(env, modules)))
    {
      RewriteEval(own, modules, env);
      AllocAndEval(parentDep, Rewrite(own, modules), env);
    }
  }

  lemma {:induction false} TransBoolNnf(e: Expr)
    requires Nnf(e)
    ensures Nnf(TransBool(e))
  {
    if e.Bin? {
      TransBoolNnf(e.left);
      TransBoolNnf(e.right);
    }
  }

  method InheritBool(parentDep: Option<Expr>, own: Option<Expr>, modules: Sym) returns (r: Option<Expr>)
    requires NnfCond(parentDep)
    ensures InheritsNonN(parentDep, own, modules, r)
    ensures NnfCond(r)
  {
    var s := Inherit(parentDep, own, modules);
    r := s;
    if s.Some? {
      r := Some(TransBool(s.value));
      TransBoolNnf(s.value);
      TransBoolNoNew(s.value);
      forall env: Env | WellTyped(env) ensures EvalCond(r, env) <= EvalCond(parentDep, env) {
        TransBoolEval(s.value, env);
      }
      forall env: Env | WellTyped(env) && ComparableCond(own, env)
        ensures EvalCond(r, env) <= EvalCond(s, env) && (EvalCond(r, env) == NO <==> EvalCond(s, env) == NO)
      {
        TransBoolEval(s.value, env);
      }
    }
  }
}
