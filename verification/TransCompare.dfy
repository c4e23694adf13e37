// Comparing a whole expression with a constant, and what it is used for:
// deciding which items go into an automatic submenu.
module TransComparison {
  import opened Tristate
  import opened Exprs
  import opened ExprEquality
  import ExprEqualityExact
  import opened Duplicates
  import opened Transformation

  // expr_trans_compare on a non-null expression, for rel = or !=.
  function TransCompare(e: Expr, rel: Rel, c: Sym): Expr
    requires rel.IsEquality() && !c.Config?
  {
    match e
    case Bin(op, l, r) =>
      var l', r' := TransCompare(l, Eq, c), TransCompare(r, Eq, c);
      var joined :=
        if c.SymYes? then Bin(op, l', r')
        else if c.SymNo? then Bin(op.Dual(), l', r')
        else e;
      if rel.Neq? then Not(joined) else joined
    case Not(a) => TransCompare(a, rel.Negate(), c)
    case Cmp(_, _, _) =>
      if c.SymMod? then Var(if rel.Eq? then SymNo else SymYes)
      else if c.SymYes? == rel.Eq? then e
      else Not(e)
    case Var(s) => Cmp(rel, s, c)
  }

  // Negated subexpressions are never m, and symbols compare by their value.
  ghost predicate TwoValuedUnderNot(e: Expr, env: Env) {
    match e
    case Var(s) => forall c: Sym :: !c.Config? ==> (env.cmp(s, c).res == 0 <==> env.tri(s) == env.tri(c))
    case Not(a) => TwoValuedUnderNot(a, env) && Eval(a, env) != MOD
    case Bin(_, l, r) => TwoValuedUnderNot(l, env) && TwoValuedUnderNot(r, env)
    case Cmp(_, _, _) => true
  }

  // Comparing with y or n computes whether the value is that constant.
  lemma {:induction false} TransCompareEval(e: Expr, rel: Rel, c: Sym, env: Env)
    requires WellTyped(env) && TwoValuedUnderNot(e, env)
    requires rel.IsEquality() && (c.SymYes? || c.SymNo?)
    ensures Eval(TransCompare(e, rel, c), env) == FromBool((Eval(e, env) == env.tri(c)) == rel.Eq?)
  {
    match e
    case Bin(_, l, r) =>
      TransCompareEval(l, Eq, c, env);
      TransCompareEval(r, Eq, c, env);
    case Not(a) =>
      TransCompareEval(a, rel.Negate(), c, env);
    case _ =>
  }

  // For a negated symbol the side condition is exact: with a=m the rewritten
  // !a!=n is n although !a is m.
  lemma NegatedSymbolExact(s: Sym, env: Env)
    requires WellTyped(env) && s.IsLogical()
    ensures Eval(TransCompare(Not(Var(s)), Neq, SymNo), env) == FromBool(Eval(Not(Var(s)), env) != NO)
            <==> env.tri(s) != MOD
  {
    assert env.cmp(s, SymNo).res == 0 <==> env.tri(s) == NO;
  }

  // Symbols and comparisons are compared with m correctly.
  lemma LeafWithMod(e: Expr, rel: Rel, env: Env)
    requires WellTyped(env) && rel.IsEquality() && (e.Cmp? || (e.Var? && e.sym.IsLogical()))
    ensures Eval(TransCompare(e, rel, SymMod), env) == FromBool((Eval(e, env) == MOD) == rel.Eq?)
  {
    if e.Var? {
      assert env.cmp(e.sym, SymMod).res == 0 <==> env.tri(e.sym) == MOD;
    }
  }

  // A conjunction or disjunction is never compared with m correctly, unless it
  // is n: the expression itself, or its negation, comes back.
  lemma CompareWithModExact(op: Op, l: Expr, r: Expr, rel: Rel, env: Env)
    requires rel.IsEquality()
    ensures var e := Bin(op, l, r);
            Eval(TransCompare(e, rel, SymMod), env) == FromBool((Eval(e, env) == MOD) == rel.Eq?) <==> Eval(e, env) == NO
  {
  }

  lemma {:induction false} TransCompareComparable(e: Expr, rel: Rel, c: Sym, env: Env)
    requires rel.IsEquality() && !c.Config? && Comparable(e, env)
    ensures Comparable(TransCompare(e, rel, c), env)
  {
    match e
    case Bin(_, l, r) =>
      TransCompareComparable(l, Eq, c, env);
      TransCompareComparable(r, Eq, c, env);
    case Not(a) =>
      TransCompareComparable(a, rel.Negate(), c, env);
    case _ =>
  }

  // expr_depends_symbol
  predicate DependsOn(e: Expr, s: Sym) {
    match e
    case Bin(op, l, r) => op.AndOp? && (DependsOn(l, s) || DependsOn(r, s))
    case Var(v) => v == s
    case Cmp(rel, a, b) => a == s && ((rel.Eq? && (b.SymYes? || b.SymMod?)) || (rel.Neq? && b.SymNo?))
    case Not(_) => false
  }

  lemma {:induction false} DependsOnContains(e: Expr, s: Sym)
    ensures DependsOn(e, s) ==> Contains(e, s)
  {
    if e.Bin? {
      DependsOnContains(e.left, s);
      DependsOnContains(e.right, s);
    }
  }

  // The symbol, its comparison with y or m, or its test for not being n.
  predicate Direct(e: Expr, s: Sym) {
    e == Var(s) || e == Cmp(Eq, s, SymYes) || e == Cmp(Eq, s, SymMod) || e == Cmp(Neq, s, SymNo)
  }

  // An expression depends on a symbol exactly if one of the operands that are
  // and-ed at the top is one of these.
  lemma {:induction false} DependsOnExact(e: Expr, s: Sym)
    ensures DependsOn(e, s) <==> exists l :: l in Leaves(AndOp, e) && Direct(l, s)
  {
    if e.Bin? && e.op == AndOp {
      DependsOnExact(e.left, s);
      DependsOnExact(e.right, s);
      assert forall l :: l in Leaves(AndOp, e) <==> l in Leaves(AndOp, e.left) || l in Leaves(AndOp, e.right);
    } else {
      assert e in Leaves(AndOp, e);
    }
  }

  lemma {:induction false} DependsOnForces(e: Expr, s: Sym, env: Env)
    requires WellTyped(env) && s.IsLogical()
    requires DependsOn(e, s) && Eval(e, env) != NO
    ensures env.tri(s) != NO
  {
    match e
    case Bin(_, l, r) =>
      if DependsOn(l, s) {
        DependsOnForces(l, s, env);
      } else {
        DependsOnForces(r, s, env);
      }
    case Cmp(_, a, b) =>
      assert env.cmp(s, b).res == 0 <==> env.tri(s) == env.tri(b);
    case _ =>
  }

  // Under every typed valuation, the symbol is set where the expression holds.
  ghost predicate Forces(e: Expr, s: Sym) {
    forall env: Env :: WellTyped(env) && Eval(e, env) != NO ==> env.tri(s) != NO
  }

  // The comparisons taken for a dependency force the symbol exactly if it is a
  // bool or tristate symbol: any other keeps the value n whatever its string
  // is.
  lemma ComparisonForcesExactly(s: Sym)
    requires s.Config?
    ensures Forces(Cmp(Eq, s, SymYes), s) <==> s.IsLogical()
    ensures Forces(Cmp(Eq, s, SymMod), s) <==> s.IsLogical()
    ensures Forces(Cmp(Neq, s, SymNo), s) <==> s.IsLogical()
  {
    var e1, e2, e3 := Cmp(Eq, s, SymYes), Cmp(Eq, s, SymMod), Cmp(Neq, s, SymNo);
    if s.IsLogical() {
      forall env: Env, e: Expr | WellTyped(env) && (e == e1 || e == e2 || e == e3) && Eval(e, env) != NO
        ensures env.tri(s) != NO
      {
        DependsOnForces(e, s, env);
      }
    } else {
      var env := AllNo();
      AllNoIsTyped();
      assert Eval(e1, env) == YES && Eval(e2, env) == YES && Eval(e3, env) == YES && env.tri(s) == NO;
    }
  }

  // All symbols are n, and those that are neither bool nor tristate equal y
  // and m, and not n.
  function AllNo(): Env {
    Env((s: Sym) => if s.SymYes? then YES else if s.SymMod? then MOD else NO,
        (a: Sym, b: Sym) => Comparison(if a.IsLogical() == b.SymNo? then 0 else 1, true))
  }

  lemma AllNoIsTyped()
    ensures WellTyped(AllNo())
  {
  }

  // ---- Automatic submenus (menu_finalize) ----

  // The test of a condition for not being n, before its operands are joined;
  // a missing condition counts as y.
  function Tested(e: Option<Expr>): Expr {
    Transform(if e.Some? then TransCompare(e.value, Neq, SymNo) else Not(Var(SymNo)))
  }

  // Bool symbols and-ed and or-ed together.
  predicate Positive(e: Expr) {
    match e
    case Var(s) => s.Type().Boolean?
    case Bin(_, l, r) => Positive(l) && Positive(r)
    case _ => false
  }

  // The negation pushed down to the symbols.
  function Opposite(e: Expr): Expr
    requires Positive(e)
  {
    if e.Bin? then Bin(e.op.Dual(), Opposite(e.left), Opposite(e.right)) else Not(e)
  }

  lemma {:induction false} OppositeOfPositive(e: Expr)
    requires Positive(e)
    ensures Transform(Opposite(e)) == Opposite(e)
    ensures Transform(Not(Opposite(e))) == e
    ensures Transform(TransCompare(e, Eq, SymNo)) == Opposite(e)
  {
    if e.Bin? {
      OppositeOfPositive(e.left);
      OppositeOfPositive(e.right);
    }
  }

  // Such a condition is its own test.
  lemma PositiveTested(e: Expr)
    requires Positive(e)
    ensures Tested(Some(e)) == e
  {
    OppositeOfPositive(e);
    if e.Bin? {
      OppositeOfPositive(e.left);
      OppositeOfPositive(e.right);
    }
  }

  // The condition with which a symbol and an item are compared: is it non-n?
  method NonNCondition(e: Option<Expr>) returns (r: Expr)
    ensures Settled(Tested(e)) ==> r == Tested(e)
    ensures forall env: Env {:trigger Eval(r, env)} ::
      WellTyped(env) && (e.Some? ==> TwoValuedUnderNot(e.value, env) && Comparable(e.value, env)) ==>
        Eval(r, env) == FromBool(e.Some? ==> Eval(e.value, env) != NO)
    ensures e.None? ==> r == Var(SymYes)
  {
    var c := if e.Some? then TransCompare(e.value, Neq, SymNo) else Not(Var(SymNo));
    r := EliminateDups(Transform(c));
    if e.None? {
      assert Transform(c) == Var(SymYes) && Settled(Var(SymYes));
    }
    forall env: Env | WellTyped(env) && (e.Some? ==> TwoValuedUnderNot(e.value, env) && Comparable(e.value, env))
      ensures Eval(r, env) == FromBool(e.Some? ==> Eval(e.value, env) != NO)
    {
      if e.Some? {
        TransCompareEval(e.value, Neq, SymNo, env);
        TransCompareComparable(e.value, Neq, SymNo, env);
      }
      TransformEval(c, env);
    }
  }

  // Why an item with condition dep may stand in the submenu of sym: it
  // mentions the symbol, and whenever it can be seen the symbol is set or its
  // prompt is visible.
  ghost predicate SubmenuJustified(dep: Option<Expr>, sym: Sym, visible: Option<Expr>) {
    && dep.Some? && Contains(dep.value, sym)
    && forall env: Env ::
         WellTyped(env) && sym.IsLogical()
         && TwoValuedUnderNot(dep.value, env) && Comparable(dep.value, env)
         && (visible.Some? ==> TwoValuedUnderNot(visible.value, env) && Comparable(visible.value, env))
         && Eval(dep.value, env) != NO ==>
           env.tri(sym) != NO || (visible.Some? ==> Eval(visible.value, env) != NO)
  }

  // A missing prompt counts as y, which every condition is a superset of: so
  // without a prompt it is enough to mention the symbol.
  lemma NothingLeftOfYes(a: Expr)
    ensures EliminateEq(a, Var(SymYes)).1 == Var(SymYes)
  {
    if a.Bin? {
      YesNotCancelled(a.op, Leaves(a.op, a));
    }
  }

  lemma {:induction false} YesNotCancelled(op: Op, xs: seq<Expr>)
    ensures Cancel(op, xs, [Var(SymYes)]).1 == [Var(SymYes)]
  {
    if xs != [] {
      var y := [Var(SymYes)];
      assert CancelRow(op, xs[0], y).1 == y by {
        assert y[1..] == [];
      }
      YesNotCancelled(op, xs[1..]);
    }
  }

  // Nothing but y is left of the prompt's condition when what it has in common
  // with the item's is cancelled.
  predicate Superset(dep: Expr, visible: Option<Expr>) {
    EliminateEq(Tested(Some(dep)), Tested(visible)).1 == Var(SymYes)
  }

  // If the symbol's prompt asks for bool symbols and-ed together, an item is a
  // superset exactly if it asks for all of these, and-ed to whatever else.
  lemma SupersetOfSymbols(dep: Expr, visible: Expr)
    requires Positive(dep) && dep.Bin? && dep.op == AndOp && Positive(visible)
    requires forall l :: l in Leaves(AndOp, visible) ==> l.Var?
    ensures Superset(dep, Some(visible)) <==> multiset(Leaves(AndOp, visible)) <= multiset(Leaves(AndOp, dep))
  {
    PositiveTested(dep);
    PositiveTested(visible);
    PositiveLeaves(AndOp, visible);
    ExprEqualityExact.SupersetExact(AndOp, dep, visible);
  }

  lemma {:induction false} PositiveLeaves(op: Op, e: Expr)
    requires Positive(e)
    ensures forall l :: l in Leaves(op, e) ==> Positive(l)
  {
    if e.Bin? && e.op == op {
      PositiveLeaves(op, e.left);
      PositiveLeaves(op, e.right);
    }
  }

  // No two operands of the tests can be joined, so these are what is compared.
  ghost predicate AsTheyAre(dep: Expr, visible: Option<Expr>) {
    Settled(Tested(Some(dep))) && Settled(Tested(visible))
  }

  // Why an item may be left out.
  ghost predicate Refused(dep: Option<Expr>, sym: Sym, visible: Option<Expr>) {
    dep.Some? ==>
      && !DependsOn(dep.value, sym)
      && (visible.None? ==> !Contains(dep.value, sym))
      && (Contains(dep.value, sym) && AsTheyAre(dep.value, visible) ==> !Superset(dep.value, visible))
  }

  // Does an item with condition dep, following the symbol sym whose prompt
  // has condition visible, belong into the submenu of sym?
  method BelongsTo(dep: Option<Expr>, sym: Sym, visible: Option<Expr>) returns (yes: bool)
    ensures yes ==> SubmenuJustified(dep, sym, visible)
    ensures dep.Some? && DependsOn(dep.value, sym) ==> yes
    ensures visible.None? ==> (yes <==> dep.Some? && Contains(dep.value, sym))
    ensures !yes ==> Refused(dep, sym, visible)
    ensures yes && !DependsOn(dep.value, sym) && AsTheyAre(dep.value, visible) ==> Superset(dep.value, visible)
  {
    if dep.None? {
      return false;
    }
    if !Contains(dep.value, sym) {
      DependsOnContains(dep.value, sym);
      return false;
    }
    if DependsOn(dep.value, sym) {
      forall env: Env | WellTyped(env) && sym.IsLogical() && Eval(dep.value, env) != NO
        ensures env.tri(sym) != NO
      {
        DependsOnForces(dep.value, sym, env);
      }
      return true;
    }
    var base := NonNCondition(visible);
    var item := NonNCondition(dep);
    var left := EliminateEq(item, base);
    if visible.None? {
      NothingLeftOfYes(item);
    }
    yes := left.1 == Var(SymYes);
    if yes {
      forall env: Env |
        WellTyped(env)
        && TwoValuedUnderNot(dep.value, env) && Comparable(dep.value, env)
        && (visible.Some? ==> TwoValuedUnderNot(visible.value, env) && Comparable(visible.value, env))
        && Eval(dep.value, env) != NO
        ensures visible.Some? ==> Eval(visible.value, env) != NO
      {
        SupersetTest(item, base, env);
        assert Eval(item, env) == YES;
        assert Eval(base, env) == FromBool(visible.Some? ==> Eval(visible.value, env) != NO);
      }
    }
  }
}
