// Exactly when the comparison succeeds on a level of plain operands.
module ExprEqualityExact {
  import opened Tristate
  import opened Exprs
  import opened ExprEquality

  // A symbol other than the constants y and n, or a comparison, or one of these
  // negated.
  predicate Plain(e: Expr) {
    match e
    case Var(s) => s != SymYes && s != SymNo
    case Cmp(_, _, _) => true
    case Not(a) => Plain(a)
    case Bin(_, _, _) => false
  }

  lemma {:induction false} PlainEq(x: Expr, y: Expr)
    requires Plain(y)
    ensures ExprEq(x, y) <==> x == y
  {
    if x.Not? && y.Not? {
      PlainEq(x.arg, y.arg);
    }
  }

  ghost predicate PlainOrUnit(op: Op, ls: seq<Expr>) {
    forall k :: 0 <= k < |ls| ==> Plain(ls[k]) || ls[k] == Var(op.Unit())
  }

  function Count(ls: seq<Expr>, e: Expr): nat {
    if ls == [] then 0 else (if ls[0] == e then 1 else 0) + Count(ls[1..], e)
  }

  lemma {:induction false} CountIsMultiplicity(ls: seq<Expr>, e: Expr)
    ensures Count(ls, e) == multiset(ls)[e]
  {
    if ls != [] {
      CountIsMultiplicity(ls[1..], e);
      assert ls == [ls[0]] + ls[1..];
    }
  }

  lemma CountCons(x: Expr, ls: seq<Expr>, e: Expr)
    ensures Count([x] + ls, e) == (if x == e then 1 else 0) + Count(ls, e)
    ensures Count([x], e) == if x == e then 1 else 0
  {
    assert ([x] + ls)[1..] == ls;
  }

  lemma PlainCons(op: Op, x: Expr, ls: seq<Expr>)
    requires Plain(x) || x == Var(op.Unit())
    requires PlainOrUnit(op, ls)
    ensures PlainOrUnit(op, [x] + ls)
  {
  }

  function Difference(a: nat, b: nat): nat {
    if a < b then 0 else a - b
  }

  lemma PlainHit(op: Op, x: Expr, y: Expr)
    requires Plain(y) || y == Var(op.Unit())
    ensures Hit(x, y) <==> x == y && x != Var(op.Unit())
  {
    if Plain(y) {
      PlainEq(x, y);
    }
  }

  lemma {:induction false} RowOfPlain(op: Op, x: Expr, ys: seq<Expr>, e: Expr)
    requires PlainOrUnit(op, ys)
    requires e != Var(op.Unit())
    ensures var (x', ys') := CancelRow(op, x, ys);
            && (x' == x || x' == Var(op.Unit()))
            && PlainOrUnit(op, ys')
            && Count([x'], e) == Difference(Count([x], e), Count(ys, e))
            && Count(ys', e) == Difference(Count(ys, e), Count([x], e))
    decreases |ys|
  {
    if ys != [] {
      var y, u := ys[0], Var(op.Unit());
      PlainHit(op, x, y);
      var x1, y1 := if Hit(x, y) then u else x, if Hit(x, y) then u else y;
      RowOfPlain(op, x1, ys[1..], e);
      var rest := CancelRow(op, x1, ys[1..]);
      assert CancelRow(op, x, ys) == (rest.0, [y1] + rest.1);
      CountCons(y1, rest.1, e);
      PlainCons(op, y1, rest.1);
    }
  }

  // Cancelling is multiset difference, on both sides.
  lemma {:induction false} CancelOfPlain(op: Op, xs: seq<Expr>, ys: seq<Expr>, e: Expr)
    requires PlainOrUnit(op, ys)
    requires e != Var(op.Unit())
    ensures var (xs', ys') := Cancel(op, xs, ys);
            && PlainOrUnit(op, ys')
            && Count(xs', e) == Difference(Count(xs, e), Count(ys, e))
            && Count(ys', e) == Difference(Count(ys, e), Count(xs, e))
    decreases |xs|
  {
    if xs != [] {
      var row := CancelRow(op, xs[0], ys);
      RowOfPlain(op, xs[0], ys, e);
      CancelOfPlain(op, xs[1..], row.1, e);
      var rest := Cancel(op, xs[1..], row.1);
      CountCons(row.0, rest.0, e);
      assert Count([xs[0]], e) == if xs[0] == e then 1 else 0;
      assert Count([row.0], e) == if row.0 == e then 1 else 0;
    }
  }

  // What is left of a first operand is the operand or the neutral constant.
  lemma {:induction false} CancelKeeps(op: Op, xs: seq<Expr>, ys: seq<Expr>)
    requires PlainOrUnit(op, xs) && PlainOrUnit(op, ys)
    ensures PlainOrUnit(op, Cancel(op, xs, ys).0)
    decreases |xs|
  {
    if xs != [] {
      var row := CancelRow(op, xs[0], ys);
      RowOfPlain(op, xs[0], ys, Var(op.Zero()));
      CancelKeeps(op, xs[1..], row.1);
      PlainCons(op, row.0, Cancel(op, xs[1..], row.1).0);
    }
  }

  // Folding a planted level leaves the neutral constant exactly when nothing
  // is live, and a single symbol only if that symbol was a live operand.
  lemma {:induction false} FoldOfPlain(op: Op, e: Expr, ls: seq<Expr>)
    requires |ls| == |Leaves(op, e)| && PlainOrUnit(op, ls)
    ensures var r := EliminateYn(Plant(op, e, ls));
            && r != Var(op.Zero())
            && (r == Var(op.Unit()) <==> forall k :: 0 <= k < |ls| ==> ls[k] == Var(op.Unit()))
            && (r.Var? ==> r in ls)
  {
    if e.Bin? && e.op == op {
      var k := |Leaves(op, e.left)|;
      FoldOfPlain(op, e.left, ls[..k]);
      FoldOfPlain(op, e.right, ls[k..]);
      Halves(ls, k);
    }
  }

  lemma Halves<T>(ls: seq<T>, k: nat)
    requires k <= |ls|
    ensures forall i :: 0 <= i < k ==> ls[..k][i] == ls[i]
    ensures forall i :: k <= i < |ls| ==> ls[k..][i - k] == ls[i]
  {
  }

  lemma {:induction false} CountZero(ls: seq<Expr>, e: Expr)
    ensures Count(ls, e) == 0 <==> e !in ls
  {
    CountIsMultiplicity(ls, e);
  }

  // What is left of b when what it has in common with the chain a is cancelled:
  // only the neutral constant exactly if all its operands are among those of a,
  // as many times.
  lemma SupersetExact(op: Op, a: Expr, b: Expr)
    requires a.Bin? && a.op == op
    requires forall e :: e in Leaves(op, b) ==> Plain(e)
    ensures EliminateEq(a, b).1 == Var(op.Unit()) <==> multiset(Leaves(op, b)) <= multiset(Leaves(op, a))
  {
    var xs, ys := Leaves(op, a), Leaves(op, b);
    var ys' := Cancel(op, xs, ys).1;
    CancelOfPlain(op, xs, ys, Var(op.Zero()));
    FoldOfPlain(op, b, ys');
    OnePhase(op, a, b);
    forall e: Expr | e != Var(op.Unit()) ensures e in ys' <==> multiset(ys)[e] > multiset(xs)[e] {
      LeftOfPlain(op, xs, ys, e);
    }
    NothingLeft(xs, ys, ys', Var(op.Unit()));
  }

  lemma LeftOfPlain(op: Op, xs: seq<Expr>, ys: seq<Expr>, e: Expr)
    requires PlainOrUnit(op, ys) && e != Var(op.Unit())
    ensures e in Cancel(op, xs, ys).1 <==> multiset(ys)[e] > multiset(xs)[e]
  {
    CancelOfPlain(op, xs, ys, e);
    CountIsMultiplicity(xs, e);
    CountIsMultiplicity(ys, e);
    CountZero(Cancel(op, xs, ys).1, e);
  }

  lemma NothingLeft(xs: seq<Expr>, ys: seq<Expr>, ys': seq<Expr>, u: Expr)
    requires u !in ys
    requires forall e: Expr :: e != u ==> (e in ys' <==> multiset(ys)[e] > multiset(xs)[e])
    ensures (forall k :: 0 <= k < |ys'| ==> ys'[k] == u) <==> multiset(ys) <= multiset(xs)
  {
    if multiset(ys) <= multiset(xs) {
      forall k | 0 <= k < |ys'| ensures ys'[k] == u {
        assert ys'[k] in ys';
      }
    } else {
      var e :| multiset(ys)[e] > multiset(xs)[e];
      assert e in multiset(ys);
      assert e in ys';
    }
  }

  // With only operands of the first connective there is one cancelling phase.
  lemma OnePhase(op: Op, a: Expr, b: Expr)
    requires a.Bin? && a.op == op
    requires forall e :: e in Leaves(op, b) ==> Plain(e)
    ensures EliminateEq(a, b).1 == EliminateYn(Plant(op, b, Cancel(op, Leaves(op, a), Leaves(op, b)).1))
  {
    CancelOfPlain(op, Leaves(op, a), Leaves(op, b), Var(op.Zero()));
    if !(b.Bin? && b.op == op) {
      assert b in Leaves(op, b);
      assert CancelTrees(op, a, b).1 == Cancel(op, Leaves(op, a), Leaves(op, b)).1[0];
    }
  }

  // Two chains of plain operands compare equal exactly when they have the
  // same operands, each the same number of times.
  lemma FlatLevelExact(a: Expr, b: Expr)
    requires a.Bin? && b.Bin? && a.op == b.op
    requires forall e :: e in Leaves(a.op, a) || e in Leaves(a.op, b) ==> Plain(e)
    ensures ExprEq(a, b) <==> multiset(Leaves(a.op, a)) == multiset(Leaves(a.op, b))
  {
    var op := a.op;
    var u := Var(op.Unit());
    var xs, ys := Leaves(op, a), Leaves(op, b);
    var (xs', ys') := Cancel(op, xs, ys);
    forall e: Expr | e != u
      ensures Count(xs', e) == Difference(multiset(xs)[e], multiset(ys)[e])
      ensures Count(ys', e) == Difference(multiset(ys)[e], multiset(xs)[e])
    {
      CancelOfPlain(op, xs, ys, e);
      CountIsMultiplicity(xs, e);
      CountIsMultiplicity(ys, e);
    }
    CancelOfPlain(op, xs, ys, Var(op.Zero()));
    CancelKeeps(op, xs, ys);
    FoldOfPlain(op, a, xs');
    FoldOfPlain(op, b, ys');
    var x, y := EliminateYn(Plant(op, a, xs')), EliminateYn(Plant(op, b, ys'));
    FlatLevelOutcome(op, xs, ys, xs', ys', x, y);
    SameRoot(a, b);
  }

  lemma SameRoot(a: Expr, b: Expr)
    requires a.Bin? && b.Bin? && a.op == b.op
    ensures var op := a.op;
            var (xs, ys) := Cancel(op, Leaves(op, a), Leaves(op, b));
            var x, y := EliminateYn(Plant(op, a, xs)), EliminateYn(Plant(op, b, ys));
            ExprEq(a, b) <==> x.Var? && y.Var? && x.sym == y.sym
  {
    SameRootPhases(a, b);
    var (x, y) := EliminateEq(a, b);
    assert ExprEq(a, b) <==> x.Var? && y.Var? && x.sym == y.sym;
  }

  // With equal root connectives only the first cancelling phase runs.
  lemma SameRootPhases(a: Expr, b: Expr)
    requires a.Bin? && b.Bin? && a.op == b.op
    ensures var (x, y) := CancelTrees(a.op, a, b);
            EliminateEq(a, b) == (EliminateYn(x), EliminateYn(y))
  {
    var (x, y) := CancelTrees(a.op, a, b);
    assert x.Bin? && x.op == a.op && y.Bin? && y.op == a.op;
  }

  lemma FlatLevelOutcome(op: Op, xs: seq<Expr>, ys: seq<Expr>, xs': seq<Expr>, ys': seq<Expr>, x: Expr, y: Expr)
    requires Var(op.Unit()) !in xs && Var(op.Unit()) !in ys
    requires forall e: Expr :: e != Var(op.Unit()) ==>
               && Count(xs', e) == Difference(multiset(xs)[e], multiset(ys)[e])
               && Count(ys', e) == Difference(multiset(ys)[e], multiset(xs)[e])
    requires x == Var(op.Unit()) <==> forall k :: 0 <= k < |xs'| ==> xs'[k] == Var(op.Unit())
    requires y == Var(op.Unit()) <==> forall k :: 0 <= k < |ys'| ==> ys'[k] == Var(op.Unit())
    requires (x.Var? ==> x in xs') && (y.Var? ==> y in ys')
    ensures (x.Var? && y.Var? && x.sym == y.sym) <==> multiset(xs) == multiset(ys)
  {
    var u := Var(op.Unit());
    if multiset(xs) == multiset(ys) {
      forall k | 0 <= k < |xs'| ensures xs'[k] == u {
        CountZero(xs', xs'[k]);
      }
      forall k | 0 <= k < |ys'| ensures ys'[k] == u {
        CountZero(ys', ys'[k]);
      }
    } else if x.Var? && x == y {
      CountZero(xs', x);
      CountZero(ys', x);
      assert x == u;
      forall e: Expr ensures multiset(xs)[e] == multiset(ys)[e] {
        if e != u {
          CountZero(xs', e);
          CountZero(ys', e);
        }
      }
      assert false;
    }
  }

  // The source's comment promises equality whenever every operand of one side
  // equals some operand of the other; a repeated operand shows it is not so.
  lemma RepeatedOperandDiffers(s: Sym, t: Sym)
    requires s.Config? && t.Config? && s != t
    ensures var a := Bin(AndOp, Bin(AndOp, Var(s), Var(s)), Var(t));
            var b := Bin(AndOp, Var(s), Var(t));
            && (forall e :: e in Leaves(AndOp, a) <==> e in Leaves(AndOp, b))
            && Equivalent(a, b)
            && !ExprEq(a, b)
  {
    var a := Bin(AndOp, Bin(AndOp, Var(s), Var(s)), Var(t));
    var b := Bin(AndOp, Var(s), Var(t));
    assert Leaves(AndOp, b) == [Var(s), Var(t)];
    assert Leaves(AndOp, Bin(AndOp, Var(s), Var(s))) == [Var(s), Var(s)];
    assert Leaves(AndOp, a) == [Var(s), Var(s), Var(t)];
    FlatLevelExact(a, b);
    assert multiset(Leaves(AndOp, a))[Var(s)] == 2;
    assert multiset(Leaves(AndOp, b))[Var(s)] == 1;
  }
}
