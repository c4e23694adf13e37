// Joining redundant operands of && and || chains.
module Duplicates {
  import opened Tristate
  import opened Exprs
  import opened ExprEquality

  // ---- expr_join_or, expr_join_and ----

  // The symbol a first operand talks about, if it has a joinable shape.
  function JoinSym1(e: Expr): Option<Sym> {
    match e
    case Var(s) => Some(s)
    case Cmp(rel, s, _) => if rel.IsEquality() then Some(s) else None
    case Not(Var(s)) => Some(s)
    case Not(Cmp(rel, s, _)) => if rel.IsEquality() then Some(s) else None
    case _ => None
  }

  function JoinSym2(e: Expr): Option<Sym> {
    match e
    case Var(s) => Some(s)
    case Cmp(rel, s, _) => if rel.IsEquality() then Some(s) else None
    case Not(Var(s)) => Some(s)
    case _ => None
  }

  // Do the two operands compare with rel against v and w, in either order?
  predicate ComparePair(e1: Expr, e2: Expr, rel: Rel, v: Sym, w: Sym) {
    && e1.Cmp? && e1.rel == rel && e2.Cmp? && e2.rel == rel
    && ((e1.rhs == v && e2.rhs == w) || (e1.rhs == w && e2.rhs == v))
  }

  // Is one operand a bare symbol and the other a comparison rel with v?
  predicate VarAndCompare(e1: Expr, e2: Expr, rel: Rel, v: Sym) {
    || (e1.Var? && e2.Cmp? && e2.rel == rel && e2.rhs == v)
    || (e2.Var? && e1.Cmp? && e1.rel == rel && e1.rhs == v)
  }

  function JoinOr(e1: Expr, e2: Expr): Option<Expr> {
    if ExprEq(e1, e2) then Some(e1)
    else if JoinSym1(e1).None? || JoinSym2(e2).None? || JoinSym1(e1) != JoinSym2(e2) then None
    else
      var s := JoinSym1(e1).value;
      if s.Type().Tristate? then
        // (a=y) || (a=m) -> a!=n, and so on for the other two pairs
        if ComparePair(e1, e2, Eq, SymYes, SymMod) then Some(Cmp(Neq, s, SymNo))
        else if ComparePair(e1, e2, Eq, SymYes, SymNo) then Some(Cmp(Neq, s, SymMod))
        else if ComparePair(e1, e2, Eq, SymMod, SymNo) then Some(Cmp(Neq, s, SymYes))
        else None
      else if s.Type().Boolean? && ((e1.Not? && e1.arg.Var? && e2.Var?) || (e2.Not? && e2.arg.Var? && e1.Var?)) then
        Some(Var(SymYes))
      else None
  }

  function JoinAnd(e1: Expr, e2: Expr): Option<Expr> {
    if ExprEq(e1, e2) then Some(e1)
    else if JoinSym1(e1).None? || JoinSym2(e2).None? || JoinSym1(e1) != JoinSym2(e2) then None
    else
      var s := JoinSym1(e1).value;
      if !s.IsLogical() then None
      else if VarAndCompare(e1, e2, Eq, SymYes) then Some(Cmp(Eq, s, SymYes))
      else if VarAndCompare(e1, e2, Neq, SymNo) then Some(Var(s))
      else if VarAndCompare(e1, e2, Neq, SymMod) then Some(Cmp(Eq, s, SymYes))
      else if !s.Type().Tristate? then None
      // (a=b) && (a!=c) -> n if b is c, else a=b
      else if e1.Cmp? && e1.rel.Eq? && e2.Cmp? && e2.rel.Neq? && e1.rhs.IsConst() && e2.rhs.IsConst() then
        Some(if e1.rhs != e2.rhs then Cmp(Eq, s, e1.rhs) else Var(SymNo))
      else if e1.Cmp? && e1.rel.Neq? && e2.Cmp? && e2.rel.Eq? && e1.rhs.IsConst() && e2.rhs.IsConst() then
        Some(if e1.rhs != e2.rhs then Cmp(Eq, s, e2.rhs) else Var(SymNo))
      else if ComparePair(e1, e2, Neq, SymYes, SymNo) then Some(Cmp(Eq, s, SymMod))
      else if ComparePair(e1, e2, Neq, SymYes, SymMod) then Some(Cmp(Eq, s, SymNo))
      else if ComparePair(e1, e2, Neq, SymMod, SymNo) then Some(Cmp(Eq, s, SymYes))
      else None
  }

  function Join(op: Op, e1: Expr, e2: Expr): Option<Expr> {
    if op.AndOp? then JoinAnd(e1, e2) else JoinOr(e1, e2)
  }

  // The three comparisons of a tristate symbol are exclusive and exhaustive.
  lemma CompareValues(s: Sym, env: Env)
    requires WellTyped(env) && s.IsLogical()
    ensures env.cmp(s, SymYes).res == 0 <==> env.tri(s) == YES
    ensures env.cmp(s, SymMod).res == 0 <==> env.tri(s) == MOD
    ensures env.cmp(s, SymNo).res == 0 <==> env.tri(s) == NO
  {
  }

  lemma JoinSound(op: Op, e1: Expr, e2: Expr, env: Env)
    requires WellTyped(env)
    requires Join(op, e1, e2).Some?
    ensures Eval(Join(op, e1, e2).value, env) == op.Apply(Eval(e1, env), Eval(e2, env))
  {
    if ExprEq(e1, e2) {
      ExprEqSound(e1, e2, env);
    } else if op.AndOp? {
      var s := JoinSym1(e1).value;
      CompareValues(s, env);
      JoinAndSound(e1, e2, s, env);
    } else {
      var s := JoinSym1(e1).value;
      CompareValues(s, env);
      JoinOrSound(e1, e2, s, env);
    }
  }

  lemma JoinOrSound(e1: Expr, e2: Expr, s: Sym, env: Env)
    requires WellTyped(env) && s.IsLogical()
    requires !ExprEq(e1, e2) && JoinOr(e1, e2).Some? && JoinSym1(e1) == Some(s)
    ensures Eval(JoinOr(e1, e2).value, env) == Max(Eval(e1, env), Eval(e2, env))
  {
    CompareValues(s, env);
  }

  lemma JoinAndSound(e1: Expr, e2: Expr, s: Sym, env: Env)
    requires WellTyped(env) && s.IsLogical()
    requires !ExprEq(e1, e2) && JoinAnd(e1, e2).Some? && JoinSym1(e1) == Some(s)
    ensures Eval(JoinAnd(e1, e2).value, env) == Min(Eval(e1, env), Eval(e2, env))
  {
    CompareValues(s, env);
    if e1.Cmp? && e2.Cmp? && e1.rhs.IsConst() && e2.rhs.IsConst() && s.Type().Tristate? && e1.rhs != e2.rhs {
      assert env.cmp(s, e1.rhs).res != 0 || env.cmp(s, e2.rhs).res != 0;
    }
  }

  // The rule (a=b) && (a!=c) -> a=b for two different constants, in either
  // order, keeps the value exactly if a does not equal both.
  lemma EqualUnequalExact(s: Sym, b: Sym, c: Sym, env: Env)
    requires s.Type().Tristate? && b.IsConst() && c.IsConst() && b != c
    ensures var e1, e2 := Cmp(Eq, s, b), Cmp(Neq, s, c);
            && JoinAnd(e1, e2) == Some(e1) == JoinAnd(e2, e1)
            && (Eval(e1, env) == Eval(Bin(AndOp, e1, e2), env) <==> !(env.cmp(s, b).res == 0 && env.cmp(s, c).res == 0))
  {
  }

  // ---- Which joins are found ----

  // Two operands found equal are joined to the first.
  lemma EqualsJoin(op: Op, e: Expr, e': Expr)
    requires ExprEq(e, e')
    ensures Join(op, e, e') == Some(e)
  {
  }

  // Any two different tests of a tristate symbol against y, m and n: two
  // equalities or-ed become the inequality with the third value; two
  // inequalities and-ed the equality with it; an equality and an inequality
  // and-ed the equality.
  lemma TestsJoin(s: Sym, b: Sym, c: Sym, d: Sym)
    requires s.Type().Tristate? && {b, c, d} == {SymYes, SymMod, SymNo}
    ensures JoinOr(Cmp(Eq, s, b), Cmp(Eq, s, c)) == Some(Cmp(Neq, s, d))
    ensures JoinAnd(Cmp(Neq, s, b), Cmp(Neq, s, c)) == Some(Cmp(Eq, s, d))
    ensures JoinAnd(Cmp(Eq, s, b), Cmp(Neq, s, c)) == Some(Cmp(Eq, s, b)) == JoinAnd(Cmp(Neq, s, c), Cmp(Eq, s, b))
  {
    assert b in {b, c, d} && c in {b, c, d} && d in {b, c, d};
    assert SymYes in {b, c, d} && SymMod in {b, c, d} && SymNo in {b, c, d};
  }

  // The symbol itself and a test of it, and-ed.
  lemma SymbolAndTestJoin(s: Sym)
    requires s.IsLogical()
    ensures var t := Cmp(Eq, s, SymYes); JoinAnd(Var(s), t) == Some(t) == JoinAnd(t, Var(s))
    ensures var t := Cmp(Neq, s, SymNo); JoinAnd(Var(s), t) == Some(Var(s)) == JoinAnd(t, Var(s))
    ensures var t := Cmp(Neq, s, SymMod); JoinAnd(Var(s), t) == Some(Cmp(Eq, s, SymYes)) == JoinAnd(t, Var(s))
  {
  }

  // A bool symbol and its negation, or-ed.
  lemma NegationJoins(s: Sym)
    requires s.Type().Boolean?
    ensures JoinOr(Var(s), Not(Var(s))) == Some(Var(SymYes)) == JoinOr(Not(Var(s)), Var(s))
  {
  }

  // An equality with a constant and an inequality with the same, and-ed.
  lemma ContradictionJoins(s: Sym, c: Sym)
    requires s.Type().Tristate? && c.IsConst()
    ensures JoinAnd(Cmp(Eq, s, c), Cmp(Neq, s, c)) == Some(Var(SymNo)) == JoinAnd(Cmp(Neq, s, c), Cmp(Eq, s, c))
  {
  }

  lemma JoinNoNew(op: Op, e1: Expr, e2: Expr, t: Sym)
    requires Join(op, e1, e2).Some? && t.Config? && Contains(Join(op, e1, e2).value, t)
    ensures Contains(e1, t) || Contains(e2, t)
  {
  }

  // Joining never needs more room than the two operands.
  lemma JoinSize(op: Op, e1: Expr, e2: Expr)
    requires Join(op, e1, e2).Some?
    ensures Size(Join(op, e1, e2).value) <= Size(e1)
    ensures !(e1.Bin? && e1.op == op) ==> !(Join(op, e1, e2).value.Bin? && Join(op, e1, e2).value.op == op)
  {
  }

  // NOT stands only directly above a symbol other than y, m and n.
  predicate Nnf(e: Expr) {
    match e
    case Not(Var(s)) => s.Config?
    case Not(_) => false
    case Bin(_, l, r) => Nnf(l) && Nnf(r)
    case _ => true
  }

  lemma {:induction false} EliminateYnNnf(e: Expr)
    requires Nnf(e)
    ensures Nnf(EliminateYn(e))
  {
    if e.Bin? {
      EliminateYnNnf(e.left);
      EliminateYnNnf(e.right);
    }
  }

  ghost predicate AllNnf(ls: seq<Expr>) {
    forall k :: 0 <= k < |ls| ==> Nnf(ls[k])
  }

  lemma AllNnfConcat(xs: seq<Expr>, ys: seq<Expr>)
    ensures AllNnf(xs + ys) <==> AllNnf(xs) && AllNnf(ys)
  {
    if AllNnf(xs + ys) {
      assert forall k :: 0 <= k < |xs| ==> (xs + ys)[k] == xs[k];
      assert forall k :: 0 <= k < |ys| ==> (xs + ys)[|xs| + k] == ys[k];
    }
  }

  lemma {:induction false} LeavesNnf(op: Op, e: Expr)
    ensures Nnf(e) <==> AllNnf(Leaves(op, e))
  {
    if e.Bin? && e.op == op {
      LeavesNnf(op, e.left);
      LeavesNnf(op, e.right);
      AllNnfConcat(Leaves(op, e.left), Leaves(op, e.right));
    } else {
      assert Leaves(op, e)[0] == e;
    }
  }

  // ---- The state of one pass over a level ----

  // No pair of operands of any level of e can be joined.
  ghost predicate Settled(e: Expr)
    decreases Size(e), 1
  {
    e.Bin? ==> (SizeOfLeaves(e.op, e); SettledLevel(e.op, Leaves(e.op, e)))
  }

  ghost predicate SettledLevel(op: Op, ls: seq<Expr>)
    decreases SumSize(ls), 2
  {
    && (forall i, j :: 0 <= i < |ls| && 0 <= j < |ls| && i != j ==> Join(op, ls[i], ls[j]).None?)
    && (forall i :: 0 <= i < |ls| ==> (SumSizeUpdate(ls, i, ls[i]); Settled(ls[i])))
  }

  // Folding the constants will shrink some operand, or drop it altogether.
  ghost predicate Progress(op: Op, ls: seq<Expr>) {
    exists k :: 0 <= k < |ls| && (ls[k] == Var(op.Unit()) || Size(EliminateYn(ls[k])) < Size(ls[k]))
  }

  ghost predicate SameFold(op: Op, s0: seq<Expr>, s: seq<Expr>) {
    forall env: Env :: WellTyped(env) ==> Fold(op, s, env) == Fold(op, s0, env)
  }

  ghost predicate NoneNew(s0: seq<Expr>, s: seq<Expr>) {
    forall t: Sym :: t.Config? && SomeMentions(s, t) ==> SomeMentions(s0, t)
  }

  lemma NestedNoneNew(s0: seq<Expr>, s: seq<Expr>, i: nat, r: Expr)
    requires NoneNew(s0, s) && i < |s| && NoNew(s[i], r)
    ensures NoneNew(s0, s[i := r])
  {
    forall t: Sym | t.Config? && SomeMentions(s[i := r], t) ensures SomeMentions(s, t) {
      var k :| 0 <= k < |s| && Contains(s[i := r][k], t);
      assert Contains(s[k], t);
    }
  }

  lemma JoinNoneNew(op: Op, s0: seq<Expr>, s: seq<Expr>, i: nat, j: nat)
    requires NoneNew(s0, s) && i < |s| && j < |s| && i != j && Join(op, s[i], s[j]).Some?
    ensures NoneNew(s0, s[i := Var(op.Unit())][j := Join(op, s[i], s[j]).value])
  {
    var u, x := Var(op.Unit()), Join(op, s[i], s[j]).value;
    var s2 := s[i := u][j := x];
    forall t: Sym | t.Config? && SomeMentions(s2, t) ensures SomeMentions(s, t) {
      var k :| 0 <= k < |s2| && Contains(s2[k], t);
      if k == j {
        JoinNoNew(op, s[i], s[j], t);
      } else {
        assert k != i && Contains(s[k], t);
      }
    }
  }

  // What n rewritings may have turned the operands s0 into.
  ghost predicate Rewritten(op: Op, s0: seq<Expr>, s: seq<Expr>, n: nat) {
    && |s| == |s0| && AllLeaves(op, s)
    && SameFold(op, s0, s)
    && SumSize(s) <= SumSize(s0)
    && (AllNnf(s0) ==> AllNnf(s))
    && NoneNew(s0, s)
    && (n == 0 ==> s == s0)
    && (n > 0 ==> Progress(op, s))
  }

  lemma FoldJoin(op: Op, s: seq<Expr>, i: nat, j: nat, t: Expr, env: Env)
    requires WellTyped(env)
    requires i < |s| && j < |s| && i != j
    requires Eval(t, env) == op.Apply(Eval(s[i], env), Eval(s[j], env))
    ensures Fold(op, s[i := Var(op.Unit())][j := t], env) == Fold(op, s, env)
  {
    var s1 := s[i := Var(op.Unit())];
    FoldUpdate(op, s, i, Var(op.Unit()), env);
    FoldUpdate(op, s1, j, t, env);
    assert s1[j] == s[j];
    var x := op.Apply(Fold(op, s[..i], env), Fold(op, s[i + 1..], env));
    var y := op.Apply(Fold(op, s1[..j], env), Fold(op, s1[j + 1..], env));
    Regroup(op, Eval(s[i], env), Eval(s[j], env), x, y);
  }

  lemma Regroup(op: Op, a: Tri, b: Tri, x: Tri, y: Tri)
    requires op.Apply(if op.AndOp? then YES else NO, x) == op.Apply(b, y)
    ensures op.Apply(op.Apply(a, b), y) == op.Apply(a, x)
  {
  }

  lemma StepJoin(op: Op, s0: seq<Expr>, s: seq<Expr>, n: nat, i: nat, j: nat)
    requires Rewritten(op, s0, s, n)
    requires i < |s| && j < |s| && i != j && Join(op, s[i], s[j]).Some?
    ensures Rewritten(op, s0, s[i := Var(op.Unit())][j := Join(op, s[i], s[j]).value], n + 1)
  {
    var u, t := Var(op.Unit()), Join(op, s[i], s[j]).value;
    var s1 := s[i := u];
    var s2 := s1[j := t];
    assert SameFold(op, s, s2) by {
      forall env: Env | WellTyped(env) ensures Fold(op, s2, env) == Fold(op, s, env) {
        JoinSound(op, s[i], s[j], env);
        FoldJoin(op, s, i, j, t, env);
      }
    }
    JoinSize(op, s[i], s[j]);
    JoinNoneNew(op, s0, s, i, j);
    SumSizeUpdate(s, i, u);
    SumSizeUpdate(s1, j, t);
    assert s2[i] == u;
  }

  lemma StepNested(op: Op, s0: seq<Expr>, s: seq<Expr>, n: nat, i: nat, r: Expr, m: nat)
    requires Rewritten(op, s0, s, n)
    requires i < |s| && !(r.Bin? && r.op == op)
    requires Equivalent(s[i], r) && Size(r) <= Size(s[i]) && (Nnf(s[i]) ==> Nnf(r)) && NoNew(s[i], r)
    requires m == 0 ==> r == s[i]
    requires m > 0 ==> Size(EliminateYn(r)) < Size(r)
    ensures Rewritten(op, s0, s[i := r], n + m)
  {
    var s1 := s[i := r];
    if m == 0 {
      assert s1 == s;
    } else {
      assert SameFold(op, s, s1) by {
        forall env: Env | WellTyped(env) ensures Fold(op, s1, env) == Fold(op, s, env) {
          FoldUpdate(op, s, i, r, env);
        }
      }
      NestedNoneNew(s0, s, i, r);
      SumSizeUpdate(s, i, r);
      assert s1[i] == r;
    }
  }

  lemma {:induction false} ProgressShrinks(op: Op, e: Expr, ls: seq<Expr>)
    requires |ls| == |Leaves(op, e)| && Progress(op, ls)
    ensures var p := Plant(op, e, ls);
            p == Var(op.Unit()) || Size(EliminateYn(p)) < Size(p)
  {
    if e.Bin? && e.op == op {
      var k := |Leaves(op, e.left)|;
      var l, r := ls[..k], ls[k..];
      var i :| 0 <= i < |ls| && (ls[i] == Var(op.Unit()) || Size(EliminateYn(ls[i])) < Size(ls[i]));
      assert i < k ==> l[i] == ls[i];
      assert i >= k ==> r[i - k] == ls[i];
      if Progress(op, l) {
        ProgressShrinks(op, e.left, l);
      } else {
        assert Progress(op, r);
        ProgressShrinks(op, e.right, r);
      }
      FoldingShrinks(op, Plant(op, e.left, l), Plant(op, e.right, r));
    }
  }

  lemma FoldingShrinks(op: Op, l: Expr, r: Expr)
    requires || l == Var(op.Unit()) || Size(EliminateYn(l)) < Size(l)
             || r == Var(op.Unit()) || Size(EliminateYn(r)) < Size(r)
    ensures Size(EliminateYn(Bin(op, l, r))) < Size(Bin(op, l, r))
  {
  }

  // ---- expr_eliminate_dups1 ----

  // Both slot arguments range over the leaf slots of one and the same tree;
  // a slot meeting itself is skipped, and a leaf that is a chain of the other
  // connective is treated first, every time it is compared.
  method EliminateDups1(op: Op, a: array<Expr>) returns (n: nat)
    requires a.Length >= 2 && AllLeaves(op, a[..])
    modifies a
    ensures Rewritten(op, old(a[..]), a[..], n)
    ensures n == 0 <==> SettledLevel(op, old(a[..]))
    decreases SumSize(a[..]), 1
  {
    n := 0;
    ghost var s0 := a[..];
    var i := 0;
    while i < a.Length
      invariant 0 <= i <= a.Length
      invariant Rewritten(op, s0, a[..], n)
      invariant SettledLevel(op, s0) ==> n == 0
      invariant n == 0 ==> forall p, q :: 0 <= p < i && 0 <= q < |s0| && p != q ==> Join(op, s0[p], s0[q]).None? && Settled(s0[p])
    {
      var j := 0;
      while j < a.Length
        invariant 0 <= j <= a.Length
        invariant Rewritten(op, s0, a[..], n)
        invariant SettledLevel(op, s0) ==> n == 0
        invariant n == 0 ==> forall p, q :: 0 <= p < i && 0 <= q < |s0| && p != q ==> Join(op, s0[p], s0[q]).None? && Settled(s0[p])
        invariant n == 0 ==> forall q :: 0 <= q < j && i != q ==> Join(op, s0[i], s0[q]).None? && Settled(s0[i])
      {
        if i != j {
          n := DupsInLeaf(op, a, i, n, s0);
          n := JoinLeaves(op, a, i, j, n, s0);
        }
        j := j + 1;
      }
      i := i + 1;
    }
  }

  // A leaf that is a chain of the other connective is treated itself.
  method DupsInLeaf(op: Op, a: array<Expr>, i: nat, n0: nat, ghost s0: seq<Expr>) returns (n: nat)
    requires i < a.Length && a.Length >= 2
    requires Rewritten(op, s0, a[..], n0)
    modifies a
    ensures Rewritten(op, s0, a[..], n) && n0 <= n
    ensures n0 == 0 ==> (n == 0 <==> Settled(s0[i]))
    decreases SumSize(a[..]), 0
  {
    n := n0;
    if a[i].Bin? {
      ghost var s := a[..];
      SumSizeUpdate(s, i, s[i]);
      var r, m := EliminateDupsLevel(a[i]);
      a[i] := r;
      StepNested(op, s0, s, n, i, r, m);
      assert a[..] == s[i := r];
      n := n + m;
    }
  }

  // Two leaves are joined if that is possible.
  method JoinLeaves(op: Op, a: array<Expr>, i: nat, j: nat, n0: nat, ghost s0: seq<Expr>) returns (n: nat)
    requires i < a.Length && j < a.Length && i != j
    requires Rewritten(op, s0, a[..], n0)
    modifies a
    ensures Rewritten(op, s0, a[..], n) && n0 <= n
    ensures n0 == 0 ==> (n == 0 <==> Join(op, s0[i], s0[j]).None?)
  {
    n := n0;
    var t := Join(op, a[i], a[j]);
    if t.Some? {
      StepJoin(op, s0, a[..], n, i, j);
      a[i] := Var(op.Unit());
      a[j] := t.value;
      n := n + 1;
    }
  }

  // One pass over the chain at the root of e.
  method EliminateDupsLevel(e: Expr) returns (r: Expr, n: nat)
    requires e.Bin?
    ensures r.Bin? && r.op == e.op
    ensures Equivalent(e, r) && Size(r) <= Size(e) && (Nnf(e) ==> Nnf(r)) && NoNew(e, r)
    ensures n == 0 ==> r == e
    ensures n == 0 <==> Settled(e)
    ensures n > 0 ==> Size(EliminateYn(r)) < Size(r)
    decreases Size(e), 1
  {
    var op := e.op;
    var ls := Leaves(op, e);
    LeavesAreLeaves(op, e);
    SizeOfLeaves(op, e);
    var a := new Expr[|ls|](k requires 0 <= k < |ls| => ls[k]);
    assert a[..] == ls;
    n := EliminateDups1(op, a);
    r := Plant(op, e, a[..]);
    PlantSame(op, e);
    PlantSize(op, e, a[..]);
    LeavesOfPlant(op, e, a[..]);
    LeavesNnf(op, e);
    LeavesNnf(op, r);
    forall env: Env | WellTyped(env) ensures Eval(e, env) == Eval(r, env) {
      PlantEval(op, e, ls, env);
      PlantEval(op, e, a[..], env);
    }
    forall t: Sym | t.Config? && Contains(r, t) ensures Contains(e, t) {
      PlantContains(op, e, ls, t);
      PlantContains(op, e, a[..], t);
    }
    if n > 0 {
      ProgressShrinks(op, e, a[..]);
    }
  }

  // expr_eliminate_dups
  method EliminateDups(e0: Expr) returns (e: Expr)
    ensures Equivalent(e0, e) && Size(e) <= Size(e0) && NoNew(e0, e)
    ensures Settled(e)
    ensures Settled(e0) ==> e == e0
    ensures Nnf(e0) ==> Nnf(e)
  {
    e := e0;
    while true
      invariant Equivalent(e0, e) && Size(e) <= Size(e0) && NoNew(e0, e)
      invariant Settled(e0) ==> e == e0
      invariant Nnf(e0) ==> Nnf(e)
      decreases Size(e)
    {
      var n := 0;
      if e.Bin? {
        e, n := EliminateDupsLevel(e);
      }
      if n == 0 {
        break;
      }
      var pass := e;
      e := EliminateYn(pass);
      EliminateYnNoNew(pass);
      forall env: Env | WellTyped(env) ensures Eval(e0, env) == Eval(e, env) {
        EliminateYnEval(pass, env);
      }
      if Nnf(pass) {
        EliminateYnNnf(pass);
      }
    }
  }
}
