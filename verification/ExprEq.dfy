// Comparing expressions modulo operand order, by cancelling common operands.
module ExprEquality {
  import opened Tristate
  import opened Exprs

  // expr_eliminate_yn: fold the constants y and n through && and ||.
  function EliminateYn(e: Expr): (r: Expr)
    ensures Size(r) <= Size(e)
  {
    if e.Bin? then
      var l := EliminateYn(e.left);
      var r := EliminateYn(e.right);
      if l == Var(e.op.Zero()) then l
      else if l == Var(e.op.Unit()) then r
      else if r == Var(e.op.Zero()) then r
      else if r == Var(e.op.Unit()) then l
      else Bin(e.op, l, r)
    else
      e
  }

  lemma {:induction false} EliminateYnEval(e: Expr, env: Env)
    requires WellTyped(env)
    ensures Eval(EliminateYn(e), env) == Eval(e, env)
  {
    if e.Bin? {
      EliminateYnEval(e.left, env);
      EliminateYnEval(e.right, env);
    }
  }

  lemma {:induction false} EliminateYnNoNew(e: Expr)
    ensures NoNew(e, EliminateYn(e))
  {
    if e.Bin? {
      EliminateYnNoNew(e.left);
      EliminateYnNoNew(e.right);
    }
  }

  // No connective of a folded expression has a constant y or n operand.
  ghost predicate Folded(e: Expr) {
    e.Bin? ==>
      && Folded(e.left) && Folded(e.right)
      && e.left !in {Var(SymYes), Var(SymNo)} && e.right !in {Var(SymYes), Var(SymNo)}
  }

  lemma {:induction false} EliminateYnFolds(e: Expr)
    ensures Folded(EliminateYn(e))
    ensures Folded(e) ==> EliminateYn(e) == e
  {
    if e.Bin? {
      EliminateYnFolds(e.left);
      EliminateYnFolds(e.right);
    }
  }

  // ---- __expr_eliminate_eq: every leaf of one side against every leaf of the other ----

  predicate BothSameConstant(x: Expr, y: Expr) {
    x == y && (x == Var(SymYes) || x == Var(SymNo))
  }

  // One leaf x of the first tree against all leaves of the second.
  function CancelRow(op: Op, x: Expr, ys: seq<Expr>): (r: (Expr, seq<Expr>))
    ensures |r.1| == |ys| && Size(r.0) <= Size(x) && SumSize(r.1) <= SumSize(ys)
    decreases Size(x) + SumSize(ys), 3, |ys|
  {
    if ys == [] then (x, ys)
    else
      var (x', y') :=
        if BothSameConstant(x, ys[0]) || !ExprEq(x, ys[0]) then (x, ys[0])
        else (Var(op.Unit()), Var(op.Unit()));
      var rest := CancelRow(op, x', ys[1..]);
      (rest.0, [y'] + rest.1)
  }

  function Cancel(op: Op, xs: seq<Expr>, ys: seq<Expr>): (r: (seq<Expr>, seq<Expr>))
    ensures |r.0| == |xs| && |r.1| == |ys|
    ensures SumSize(r.0) <= SumSize(xs) && SumSize(r.1) <= SumSize(ys)
    decreases SumSize(xs) + SumSize(ys), 4, |xs|
  {
    if xs == [] then (xs, ys)
    else
      var row := CancelRow(op, xs[0], ys);
      var rest := Cancel(op, xs[1..], row.1);
      ([row.0] + rest.0, rest.1)
  }

  function CancelTrees(op: Op, a: Expr, b: Expr): (r: (Expr, Expr))
    requires (a.Bin? && a.op == op) || (b.Bin? && b.op == op)
    ensures Size(r.0) <= Size(a) && Size(r.1) <= Size(b)
    ensures a.Bin? && a.op == op ==> r.0.Bin? && r.0.op == op
    ensures b.Bin? && b.op == op ==> r.1.Bin? && r.1.op == op
    decreases Size(a) + Size(b), 0
  {
    SizeOfLeaves(op, a);
    SizeOfLeaves(op, b);
    var (xs, ys) := Cancel(op, Leaves(op, a), Leaves(op, b));
    PlantSize(op, a, xs);
    PlantSize(op, b, ys);
    (Plant(op, a, xs), Plant(op, b, ys))
  }

  // expr_eliminate_eq on two non-null trees.
  function EliminateEq(a: Expr, b: Expr): (Expr, Expr)
    decreases Size(a) + Size(b), 1
  {
    var (a1, b1) := if a.Bin? then CancelTrees(a.op, a, b) else (a, b);
    var (a2, b2) := if b1.Bin? && !(a1.Bin? && a1.op == b1.op) then CancelTrees(b1.op, a1, b1) else (a1, b1);
    (EliminateYn(a2), EliminateYn(b2))
  }

  // expr_eq
  predicate ExprEq(a: Expr, b: Expr)
    decreases Size(a) + Size(b), 2
  {
    match (a, b)
    case (Cmp(rel, s, t), Cmp(rel', s', t')) => rel == rel' && s == s' && t == t'
    case (Var(s), Var(s')) => s == s'
    case (Not(x), Not(y)) => ExprEq(x, y)
    case (Bin(op, _, _), Bin(op', _, _)) =>
      if op != op' then false
      else
        var (x, y) := EliminateEq(a, b);
        x.Var? && y.Var? && x.sym == y.sym
    case _ => false
  }

  lemma {:induction false} SizeOfLeaves(op: Op, e: Expr)
    ensures SumSize(Leaves(op, e)) == Size(e) - (|Leaves(op, e)| - 1)
    ensures e.Bin? && e.op == op ==> SumSize(Leaves(op, e)) < Size(e) && |Leaves(op, e)| > 1
  {
    PlantSame(op, e);
    PlantSize(op, e, Leaves(op, e));
  }

  // ---- Soundness: what is cancelled is a common factor ----

  lemma {:induction false} ExprEqSound(a: Expr, b: Expr, env: Env)
    requires WellTyped(env) && ExprEq(a, b)
    ensures Eval(a, env) == Eval(b, env)
    decreases Size(a) + Size(b), 2
  {
    match (a, b)
    case (Not(x), Not(y)) =>
      ExprEqSound(x, y, env);
    case (Bin(op, _, _), Bin(op', _, _)) =>
      var c := CancelTreesFactor(op, a, b, env);
      var (x, y) := CancelTrees(op, a, b);
      EliminateYnEval(x, env);
      EliminateYnEval(y, env);
    case _ =>
  }

  // Replacing one operand v of both sides by the neutral operand: c' is the
  // factor of what follows, p and q what is left of the two sides.
  lemma FactorStep(op: Op, v: Tri, c: Tri, unit: Tri, p: Tri, tail: Tri, q: Tri)
    requires unit == if op.AndOp? then YES else NO
    requires unit == op.Apply(c, p) && tail == op.Apply(c, q)
    ensures v == op.Apply(op.Apply(c, v), p)
    ensures op.Apply(v, tail) == op.Apply(op.Apply(c, v), op.Apply(unit, q))
  {
  }

  lemma FactorMerge(op: Op, c0: Tri, c1: Tri, x: Tri, xs: Tri, ys: Tri)
    ensures op.Apply(op.Apply(c0, x), op.Apply(c1, xs)) == op.Apply(op.Apply(c0, c1), op.Apply(x, xs))
    ensures op.Apply(c0, op.Apply(c1, ys)) == op.Apply(op.Apply(c0, c1), ys)
  {
  }

  lemma FactorSkip(op: Op, c: Tri, y: Tri, tail: Tri, q: Tri)
    requires tail == op.Apply(c, q)
    ensures op.Apply(y, tail) == op.Apply(c, op.Apply(y, q))
  {
  }

  lemma {:induction false} CancelRowFactor(op: Op, x: Expr, ys: seq<Expr>, env: Env) returns (c: Tri)
    requires WellTyped(env)
    ensures Eval(x, env) == op.Apply(c, Eval(CancelRow(op, x, ys).0, env))
    ensures Fold(op, ys, env) == op.Apply(c, Fold(op, CancelRow(op, x, ys).1, env))
    decreases Size(x) + SumSize(ys), 3, |ys|
  {
    if ys == [] {
      c := if op.AndOp? then YES else NO;
    } else if BothSameConstant(x, ys[0]) || !ExprEq(x, ys[0]) {
      c := CancelRowFactor(op, x, ys[1..], env);
      var rest := CancelRow(op, x, ys[1..]);
      FoldCons(op, ys[0], rest.1, env);
      FactorSkip(op, c, Eval(ys[0], env), Fold(op, ys[1..], env), Fold(op, rest.1, env));
    } else {
      ExprEqSound(x, ys[0], env);
      var u := Var(op.Unit());
      var c' := CancelRowFactor(op, u, ys[1..], env);
      c := op.Apply(c', Eval(x, env));
      var rest := CancelRow(op, u, ys[1..]);
      FoldCons(op, u, rest.1, env);
      FactorStep(op, Eval(x, env), c', Eval(u, env), Eval(rest.0, env), Fold(op, ys[1..], env), Fold(op, rest.1, env));
    }
  }

  lemma {:induction false} CancelFactor(op: Op, xs: seq<Expr>, ys: seq<Expr>, env: Env) returns (c: Tri)
    requires WellTyped(env)
    ensures Fold(op, xs, env) == op.Apply(c, Fold(op, Cancel(op, xs, ys).0, env))
    ensures Fold(op, ys, env) == op.Apply(c, Fold(op, Cancel(op, xs, ys).1, env))
    decreases SumSize(xs) + SumSize(ys), 4, |xs|
  {
    if xs == [] {
      c := if op.AndOp? then YES else NO;
    } else {
      var row := CancelRow(op, xs[0], ys);
      var rest := Cancel(op, xs[1..], row.1);
      var c0 := CancelRowFactor(op, xs[0], ys, env);
      var c1 := CancelFactor(op, xs[1..], row.1, env);
      c := op.Apply(c0, c1);
      FoldCons(op, row.0, rest.0, env);
      FactorMerge(op, c0, c1, Eval(row.0, env), Fold(op, rest.0, env), Fold(op, rest.1, env));
    }
  }

  // Both trees are c op what is left of them, for one and the same c.
  lemma {:induction false} CancelTreesFactor(op: Op, a: Expr, b: Expr, env: Env) returns (c: Tri)
    requires WellTyped(env)
    requires (a.Bin? && a.op == op) || (b.Bin? && b.op == op)
    ensures Eval(a, env) == op.Apply(c, Eval(CancelTrees(op, a, b).0, env))
    ensures Eval(b, env) == op.Apply(c, Eval(CancelTrees(op, a, b).1, env))
    decreases Size(a) + Size(b), 0
  {
    SizeOfLeaves(op, a);
    SizeOfLeaves(op, b);
    var xs, ys := Leaves(op, a), Leaves(op, b);
    c := CancelFactor(op, xs, ys, env);
    PlantSame(op, a);
    PlantSame(op, b);
    PlantEval(op, a, xs, env);
    PlantEval(op, b, ys, env);
    PlantEval(op, a, Cancel(op, xs, ys).0, env);
    PlantEval(op, b, Cancel(op, xs, ys).1, env);
  }

  // The superset test: if nothing but y is left of b, then a is at most b,
  // whatever the two root connectives are and however many phases ran.
  lemma {:induction false} SupersetTest(a: Expr, b: Expr, env: Env)
    requires WellTyped(env)
    requires EliminateEq(a, b).1 == Var(SymYes)
    ensures Eval(a, env) <= Eval(b, env)
  {
    var (a1, b1) := if a.Bin? then CancelTrees(a.op, a, b) else (a, b);
    if a.Bin? {
      var c := CancelTreesFactor(a.op, a, b, env);
    }
    var (a2, b2) := if b1.Bin? && !(a1.Bin? && a1.op == b1.op) then CancelTrees(b1.op, a1, b1) else (a1, b1);
    if b1.Bin? && !(a1.Bin? && a1.op == b1.op) {
      var d := CancelTreesFactor(b1.op, a1, b1, env);
    }
    EliminateYnEval(b2, env);
  }

  predicate Hit(x: Expr, y: Expr) {
    !BothSameConstant(x, y) && ExprEq(x, y)
  }

  lemma PrefixStep<T>(b: seq<T>, j: nat, y: T, rest: seq<T>)
    requires j < |b|
    ensures b[j := y][..j + 1] + rest == b[..j] + ([y] + rest)
    ensures b[j := y][j + 1..] == b[j + 1..] && b[j..] == [b[j]] + b[j + 1..]
  {
  }

  lemma CancelRowCons(op: Op, x: Expr, y: Expr, ys: seq<Expr>)
    ensures var u := Var(op.Unit());
            CancelRow(op, x, [y] + ys) ==
            if Hit(x, y) then (CancelRow(op, u, ys).0, [u] + CancelRow(op, u, ys).1)
            else (CancelRow(op, x, ys).0, [y] + CancelRow(op, x, ys).1)
  {
    assert ([y] + ys)[1..] == ys;
  }

  lemma CancelCons(op: Op, x: Expr, xs: seq<Expr>, ys: seq<Expr>)
    ensures var row := CancelRow(op, x, ys);
            var rest := Cancel(op, xs, row.1);
            Cancel(op, [x] + xs, ys) == ([row.0] + rest.0, rest.1)
  {
    assert ([x] + xs)[1..] == xs;
  }

  lemma CancelStep(op: Op, a: seq<Expr>, i: nat, b: seq<Expr>)
    requires i < |a|
    ensures var row := CancelRow(op, a[i], b);
            var a' := a[i := row.0];
            && a'[..i + 1] + Cancel(op, a'[i + 1..], row.1).0 == a[..i] + Cancel(op, a[i..], b).0
            && Cancel(op, a'[i + 1..], row.1).1 == Cancel(op, a[i..], b).1
  {
    var row := CancelRow(op, a[i], b);
    var rest := Cancel(op, a[i + 1..], row.1);
    PrefixStep(a, i, row.0, rest.0);
    CancelCons(op, a[i], a[i + 1..], b);
  }

  // One slot of the second tree: what is done and what is still to be done
  // make up the same row as before.
  lemma RowStep(op: Op, x: Expr, b: seq<Expr>, j: nat)
    requires j < |b|
    ensures var u := Var(op.Unit());
            var x', b' := if Hit(x, b[j]) then u else x, if Hit(x, b[j]) then b[j := u] else b;
            && CancelRow(op, x', b'[j + 1..]).0 == CancelRow(op, x, b[j..]).0
            && b'[..j + 1] + CancelRow(op, x', b'[j + 1..]).1 == b[..j] + CancelRow(op, x, b[j..]).1
  {
    var u := Var(op.Unit());
    var x', y' := if Hit(x, b[j]) then u else x, if Hit(x, b[j]) then u else b[j];
    CancelRowCons(op, x, b[j], b[j + 1..]);
    PrefixStep(b, j, y', CancelRow(op, x', b[j + 1..]).1);
    assert b[j := b[j]] == b;
  }

  // The same cancelling done in place on the leaf slots of the two trees:
  // one slot of the first against every slot of the second, ...
  method CancelRowInPlace(op: Op, a: array<Expr>, i: nat, b: array<Expr>)
    requires a != b && i < a.Length
    modifies a, b
    ensures a[..] == old(a[..])[i := CancelRow(op, old(a[i]), old(b[..])).0]
    ensures b[..] == CancelRow(op, old(a[i]), old(b[..])).1
  {
    ghost var row := CancelRow(op, a[i], b[..]);
    var j := 0;
    assert b[..][0..] == b[..];
    while j < b.Length
      invariant 0 <= j <= b.Length
      invariant forall k :: 0 <= k < a.Length && k != i ==> a[k] == old(a[k])
      invariant row.0 == CancelRow(op, a[i], b[..][j..]).0
      invariant row.1 == b[..][..j] + CancelRow(op, a[i], b[..][j..]).1
    {
      RowStep(op, a[i], b[..], j);
      ghost var before := b[..];
      if Hit(a[i], b[j]) {
        a[i] := Var(op.Unit());
        b[j] := Var(op.Unit());
        assert b[..] == before[j := b[j]];
      }
      j := j + 1;
    }
    assert b[..][..j] == b[..] && b[..][j..] == [];
  }

  // ... and so for every slot of the first.
  method CancelInPlace(op: Op, a: array<Expr>, b: array<Expr>)
    requires a != b
    modifies a, b
    ensures a[..] == Cancel(op, old(a[..]), old(b[..])).0
    ensures b[..] == Cancel(op, old(a[..]), old(b[..])).1
  {
    ghost var result := Cancel(op, a[..], b[..]);
    var i := 0;
    assert a[0..] == a[..];
    while i < a.Length
      invariant 0 <= i <= a.Length
      invariant result.0 == a[..i] + Cancel(op, a[i..], b[..]).0
      invariant result.1 == Cancel(op, a[i..], b[..]).1
    {
      CancelStep(op, a[..], i, b[..]);
      assert a[..i] == a[..][..i] && a[i..] == a[..][i..];
      CancelRowInPlace(op, a, i, b);
      assert a[..i + 1] == a[..][..i + 1] && a[i + 1..] == a[..][i + 1..];
      i := i + 1;
    }
    assert a[..i] == a[..] && a[i..] == [];
  }
}
