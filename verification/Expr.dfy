// Dependency expressions and their meaning under a valuation of the symbols.
module Exprs {
  import opened Tristate

  datatype Option<+T> = None | Some(value: T)

  datatype SymType = Boolean | Tristate | Int | Hex | String | Unknown | Other

  // The three constant symbols are identified by address in the source; every
  // other symbol is identified by its name, and carries its declared type.
  datatype Sym =
    | SymYes
    | SymMod
    | SymNo
    | Config(name: string, ty: SymType, quoted: bool)
  {
    function Type(): SymType {
      if Config? then ty else Unknown
    }

    predicate IsConst() {
      Config? ==> quoted
    }

    predicate IsLogical() {
      Type().Boolean? || Type().Tristate?
    }
  }

  datatype Op = AndOp | OrOp
  {
    // The neutral operand of the connective: y for &&, n for ||.
    function Unit(): Sym {
      if AndOp? then SymYes else SymNo
    }

    function Zero(): Sym {
      if AndOp? then SymNo else SymYes
    }

    function Apply(a: Tri, b: Tri): Tri {
      if AndOp? then Min(a, b) else Max(a, b)
    }

    function Dual(): Op {
      if AndOp? then OrOp else AndOp
    }
  }

  datatype Rel = Eq | Neq | Lt | Le | Gt | Ge
  {
    function Negate(): Rel {
      match this
      case Eq => Neq
      case Neq => Eq
      case Lt => Ge
      case Ge => Lt
      case Le => Gt
      case Gt => Le
    }

    predicate IsEquality() {
      Eq? || Neq?
    }

    predicate Holds(res: int) {
      match this
      case Eq => res == 0
      case Neq => res != 0
      case Lt => res < 0
      case Le => res <= 0
      case Gt => res > 0
      case Ge => res >= 0
    }
  }

  datatype Expr =
    | Var(sym: Sym)
    | Not(arg: Expr)
    | Bin(op: Op, left: Expr, right: Expr)
    | Cmp(rel: Rel, lhs: Sym, rhs: Sym)

  // Outcome of comparing two symbol values: the sign of the difference, and
  // whether ordering them makes sense at all.
  datatype Comparison = Comparison(res: int, ordered: bool)

  datatype Env = Env(tri: Sym -> Tri, cmp: (Sym, Sym) -> Comparison)

  function Eval(e: Expr, env: Env): Tri {
    match e
    case Var(s) => env.tri(s)
    case Not(a) => Complement(Eval(a, env))
    case Bin(op, l, r) => op.Apply(Eval(l, env), Eval(r, env))
    case Cmp(rel, a, b) =>
      var c := env.cmp(a, b);
      if !rel.IsEquality() && !c.ordered then NO else FromBool(rel.Holds(c.res))
  }

  // The constants have their own values; a bool symbol is never m; comparing
  // a bool or tristate symbol with y, m or n tests its value; and a tristate
  // symbol never equals two different constants at once.
  ghost predicate WellTyped(env: Env) {
    && env.tri(SymYes) == YES && env.tri(SymMod) == MOD && env.tri(SymNo) == NO
    && (forall s: Sym :: s.Type().Boolean? ==> env.tri(s) != MOD)
    && (forall s: Sym, c: Sym {:trigger env.cmp(s, c)} ::
          s.IsLogical() && !c.Config? ==>
            (env.cmp(s, c).res == 0 <==> env.tri(s) == env.tri(c)))
    && DistinctConstants(env)
  }

  ghost predicate DistinctConstants(env: Env) {
    forall s: Sym, c: Sym, d: Sym {:trigger env.cmp(s, c), env.cmp(s, d)} ::
      s.Type().Tristate? && c.IsConst() && d.IsConst() && c != d ==>
        env.cmp(s, c).res != 0 || env.cmp(s, d).res != 0
  }

  ghost predicate Equivalent(a: Expr, b: Expr) {
    forall env: Env :: WellTyped(env) ==> Eval(a, env) == Eval(b, env)
  }

  function Size(e: Expr): nat {
    match e
    case Var(_) => 1
    case Cmp(_, _, _) => 1
    case Not(a) => 1 + Size(a)
    case Bin(_, l, r) => 1 + Size(l) + Size(r)
  }

  // expr_contains_symbol
  predicate Contains(e: Expr, s: Sym) {
    match e
    case Var(v) => v == s
    case Not(a) => Contains(a, s)
    case Bin(_, l, r) => Contains(l, s) || Contains(r, s)
    case Cmp(_, a, b) => a == s || b == s
  }

  // No symbols besides the constants y, m and n have come in.
  ghost predicate NoNew(e: Expr, r: Expr) {
    forall t: Sym :: t.Config? && Contains(r, t) ==> Contains(e, t)
  }

  // The expression with another symbol in the place of s.
  function Renamed(e: Expr, s: Sym, t: Sym): Expr {
    match e
    case Var(v) => Var(if v == s then t else v)
    case Not(a) => Not(Renamed(a, s, t))
    case Bin(op, l, r) => Bin(op, Renamed(l, s, t), Renamed(r, s, t))
    case Cmp(rel, a, b) => Cmp(rel, if a == s then t else a, if b == s then t else b)
  }

  // An expression contains exactly the symbols whose renaming changes it.
  lemma {:induction false} ContainsExact(e: Expr, s: Sym, t: Sym)
    requires s != t
    ensures Contains(e, s) <==> Renamed(e, s, t) != e
  {
    match e
    case Not(a) =>
      ContainsExact(a, s, t);
    case Bin(_, l, r) =>
      ContainsExact(l, s, t);
      ContainsExact(r, s, t);
    case _ =>
  }

  // A valuation may change freely on symbols the expression does not contain.
  lemma {:induction false} ContainsIsSupport(e: Expr, env: Env, env': Env)
    requires forall s: Sym :: Contains(e, s) ==> env.tri(s) == env'.tri(s)
    requires forall a: Sym, b: Sym :: Contains(e, a) && Contains(e, b) ==> env.cmp(a, b) == env'.cmp(a, b)
    ensures Eval(e, env) == Eval(e, env')
  {
    match e
    case Var(v) =>
      assert Contains(e, v);
    case Not(a) =>
      ContainsIsSupport(a, env, env');
    case Bin(_, l, r) =>
      ContainsIsSupport(l, env, env');
      ContainsIsSupport(r, env, env');
    case Cmp(_, a, b) =>
      assert Contains(e, a) && Contains(e, b);
  }

  // ---- One level of a connective: its operands, in order ----

  // Maximal operands of a chain of op, left to right.
  function Leaves(op: Op, e: Expr): (ls: seq<Expr>)
    ensures |ls| > 0
  {
    if e.Bin? && e.op == op then Leaves(op, e.left) + Leaves(op, e.right) else [e]
  }

  // The tree of e with its operands at this level replaced, in order, by ls.
  function Plant(op: Op, e: Expr, ls: seq<Expr>): Expr
    requires |ls| == |Leaves(op, e)|
  {
    if e.Bin? && e.op == op then
      var k := |Leaves(op, e.left)|;
      Bin(op, Plant(op, e.left, ls[..k]), Plant(op, e.right, ls[k..]))
    else
      ls[0]
  }

  function Fold(op: Op, ls: seq<Expr>, env: Env): Tri {
    if ls == [] then (if op.AndOp? then YES else NO)
    else op.Apply(Eval(ls[0], env), Fold(op, ls[1..], env))
  }

  function SumSize(ls: seq<Expr>): nat {
    if ls == [] then 0 else Size(ls[0]) + SumSize(ls[1..])
  }

  ghost predicate AllLeaves(op: Op, ls: seq<Expr>) {
    forall k :: 0 <= k < |ls| ==> !(ls[k].Bin? && ls[k].op == op)
  }

  lemma {:induction false} LeavesAreLeaves(op: Op, e: Expr)
    ensures AllLeaves(op, Leaves(op, e))
  {
    if e.Bin? && e.op == op {
      LeavesAreLeaves(op, e.left);
      LeavesAreLeaves(op, e.right);
    }
  }

  lemma FoldCons(op: Op, x: Expr, ls: seq<Expr>, env: Env)
    ensures Fold(op, [x] + ls, env) == op.Apply(Eval(x, env), Fold(op, ls, env))
  {
    assert ([x] + ls)[1..] == ls;
  }

  lemma {:induction false} FoldConcat(op: Op, xs: seq<Expr>, ys: seq<Expr>, env: Env)
    ensures Fold(op, xs + ys, env) == op.Apply(Fold(op, xs, env), Fold(op, ys, env))
  {
    if xs == [] {
      assert xs + ys == ys;
    } else {
      assert (xs + ys)[0] == xs[0] && (xs + ys)[1..] == xs[1..] + ys;
      FoldConcat(op, xs[1..], ys, env);
    }
  }

  lemma FoldSplit(op: Op, ls: seq<Expr>, k: nat, env: Env)
    requires k <= |ls|
    ensures Fold(op, ls, env) == op.Apply(Fold(op, ls[..k], env), Fold(op, ls[k..], env))
  {
    assert ls[..k] + ls[k..] == ls;
    FoldConcat(op, ls[..k], ls[k..], env);
  }

  // A planted tree means the fold of its operands.
  lemma {:induction false} PlantEval(op: Op, e: Expr, ls: seq<Expr>, env: Env)
    requires |ls| == |Leaves(op, e)|
    ensures Eval(Plant(op, e, ls), env) == Fold(op, ls, env)
  {
    if e.Bin? && e.op == op {
      var k := |Leaves(op, e.left)|;
      PlantEval(op, e.left, ls[..k], env);
      PlantEval(op, e.right, ls[k..], env);
      FoldSplit(op, ls, k, env);
    } else {
      assert ls[1..] == [];
    }
  }

  lemma {:induction false} PlantSame(op: Op, e: Expr)
    ensures Plant(op, e, Leaves(op, e)) == e
  {
    if e.Bin? && e.op == op {
      var k := |Leaves(op, e.left)|;
      assert Leaves(op, e)[..k] == Leaves(op, e.left) && Leaves(op, e)[k..] == Leaves(op, e.right);
      PlantSame(op, e.left);
      PlantSame(op, e.right);
    }
  }

  lemma {:induction false} LeavesOfPlant(op: Op, e: Expr, ls: seq<Expr>)
    requires |ls| == |Leaves(op, e)| && AllLeaves(op, ls)
    ensures Leaves(op, Plant(op, e, ls)) == ls
  {
    if e.Bin? && e.op == op {
      var k := |Leaves(op, e.left)|;
      LeavesOfPlant(op, e.left, ls[..k]);
      LeavesOfPlant(op, e.right, ls[k..]);
      assert ls[..k] + ls[k..] == ls;
    }
  }

  ghost predicate SomeMentions(ls: seq<Expr>, t: Sym) {
    exists k :: 0 <= k < |ls| && Contains(ls[k], t)
  }

  lemma {:induction false} PlantContains(op: Op, e: Expr, ls: seq<Expr>, t: Sym)
    requires |ls| == |Leaves(op, e)|
    ensures Contains(Plant(op, e, ls), t) <==> SomeMentions(ls, t)
  {
    if e.Bin? && e.op == op {
      var k := |Leaves(op, e.left)|;
      PlantContains(op, e.left, ls[..k], t);
      PlantContains(op, e.right, ls[k..], t);
      if SomeMentions(ls, t) {
        var i :| 0 <= i < |ls| && Contains(ls[i], t);
        assert i < k ==> ls[..k][i] == ls[i];
        assert i >= k ==> ls[k..][i - k] == ls[i];
      }
    } else {
      assert Contains(ls[0], t) ==> SomeMentions(ls, t);
    }
  }

  lemma {:induction false} SumSizeConcat(xs: seq<Expr>, ys: seq<Expr>)
    ensures SumSize(xs + ys) == SumSize(xs) + SumSize(ys)
  {
    if xs == [] {
      assert xs + ys == ys;
    } else {
      assert (xs + ys)[0] == xs[0] && (xs + ys)[1..] == xs[1..] + ys;
      SumSizeConcat(xs[1..], ys);
    }
  }

  // Each connective node of the level costs one on top of the operands.
  lemma {:induction false} PlantSize(op: Op, e: Expr, ls: seq<Expr>)
    requires |ls| == |Leaves(op, e)|
    ensures Size(Plant(op, e, ls)) == |ls| - 1 + SumSize(ls)
  {
    if e.Bin? && e.op == op {
      var k := |Leaves(op, e.left)|;
      PlantSize(op, e.left, ls[..k]);
      PlantSize(op, e.right, ls[k..]);
      SumSizeConcat(ls[..k], ls[k..]);
      assert ls[..k] + ls[k..] == ls;
    } else {
      assert ls[1..] == [];
    }
  }

  // Putting x in place of operand k.
  lemma {:induction false} FoldUpdate(op: Op, ls: seq<Expr>, k: nat, x: Expr, env: Env)
    requires k < |ls|
    ensures Fold(op, ls[k := x], env) ==
            op.Apply(Eval(x, env), op.Apply(Fold(op, ls[..k], env), Fold(op, ls[k + 1..], env)))
    ensures Fold(op, ls, env) ==
            op.Apply(Eval(ls[k], env), op.Apply(Fold(op, ls[..k], env), Fold(op, ls[k + 1..], env)))
  {
    assert ls[k := x] == ls[..k] + ([x] + ls[k + 1..]);
    assert ls == ls[..k] + ([ls[k]] + ls[k + 1..]);
    FoldConcat(op, ls[..k], [x] + ls[k + 1..], env);
    FoldConcat(op, ls[..k], [ls[k]] + ls[k + 1..], env);
    assert ([x] + ls[k + 1..])[1..] == ls[k + 1..];
    assert ([ls[k]] + ls[k + 1..])[1..] == ls[k + 1..];
  }

  lemma {:induction false} SumSizeUpdate(ls: seq<Expr>, k: nat, x: Expr)
    requires k < |ls|
    ensures SumSize(ls[k := x]) == SumSize(ls) - Size(ls[k]) + Size(x)
    ensures SumSize(ls) >= Size(ls[k]) + |ls| - 1
  {
    if k == 0 {
      assert ls[k := x][1..] == ls[1..];
      SumSizeLength(ls[1..]);
    } else {
      assert ls[k := x][1..] == ls[1..][k - 1 := x];
      SumSizeUpdate(ls[1..], k - 1, x);
    }
  }

  lemma {:induction false} SumSizeLength(ls: seq<Expr>)
    ensures SumSize(ls) >= |ls|
  {
    if ls != [] {
      SumSizeLength(ls[1..]);
    }
  }
}
