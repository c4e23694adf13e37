// The passes that overwrite expression nodes in place, on the nodes themselves.
module ExprNodes {
  import opened Exprs
  import opened ExprEquality
  import opened Transformation

  datatype Kind = IsVar | IsNot | IsBin(op: Op) | IsCmp(rel: Rel)

  // A node owns its operand trees: no node is shared.  Tree is the expression
  // the node stands for, Repr (at least) the nodes it is made of.
  class Node {
    var kind: Kind
    var left: Node?
    var right: Node?
    var lsym: Sym
    var rsym: Sym
    ghost var Repr: set<Node>
    ghost var Tree: Expr

    ghost predicate Valid()
      reads this, Repr
      ensures Valid() ==> this in Repr
      decreases Repr
    {
      && this in Repr
      && (kind.IsNot? || kind.IsBin? ==>
            && left != null && left in Repr && left.Repr <= Repr && this !in left.Repr && left.Valid())
      && (kind.IsBin? ==>
            && right != null && right in Repr && right.Repr <= Repr && this !in right.Repr && right.Valid()
            && left.Repr !! right.Repr)
      && Tree == match kind
                 case IsVar => Var(lsym)
                 case IsCmp(rel) => Cmp(rel, lsym, rsym)
                 case IsNot => Not(left.Tree)
                 case IsBin(op) => Bin(op, left.Tree, right.Tree)
    }

    // expr_alloc_symbol
    constructor Symbol(s: Sym)
      ensures Valid() && fresh(Repr) && Tree == Var(s)
    {
      kind, left, right, lsym, rsym := IsVar, null, null, s, s;
      Repr, Tree := {this}, Var(s);
    }

    // expr_alloc_one with E_NOT
    constructor Negation(arg: Node)
      requires arg.Valid()
      ensures Valid() && Repr == {this} + arg.Repr && Tree == Not(arg.Tree)
      ensures fresh(this)
    {
      kind, left, right, lsym, rsym := IsNot, arg, null, SymNo, SymNo;
      Repr, Tree := {this} + arg.Repr, Not(arg.Tree);
    }

    // expr_alloc_two
    constructor Binary(op: Op, l: Node, r: Node)
      requires l.Valid() && r.Valid() && l.Repr !! r.Repr
      ensures Valid() && Repr == {this} + l.Repr + r.Repr && Tree == Bin(op, l.Tree, r.Tree)
      ensures fresh(this)
    {
      kind, left, right, lsym, rsym := IsBin(op), l, r, SymNo, SymNo;
      Repr, Tree := {this} + l.Repr + r.Repr, Bin(op, l.Tree, r.Tree);
    }

    predicate IsConstant(s: Sym)
      reads this
    {
      kind.IsVar? && lsym == s
    }

    // The assignment *e = *child of the source.
    method Overwrite(child: Node)
      requires Valid() && child.Valid() && child.Repr <= Repr && this !in child.Repr
      modifies this
      ensures Valid() && Tree == child.Tree && Repr == old(Repr)
    {
      kind, left, right, lsym, rsym := child.kind, child.left, child.right, child.lsym, child.rsym;
      Tree := child.Tree;
    }

    method BecomeSymbol(s: Sym)
      requires Valid()
      modifies this
      ensures Valid() && Tree == Var(s) && Repr == old(Repr)
    {
      kind, lsym, right := IsVar, s, null;
      Tree := Var(s);
    }

    method SetArg(l: Node)
      requires kind.IsNot? && this in Repr && l.Valid() && this !in l.Repr
      modifies this
      ensures Valid() && Repr == old(Repr) + l.Repr && Tree == Not(l.Tree)
      ensures kind == old(kind) && left == l
    {
      left := l;
      Repr, Tree := Repr + l.Repr, Not(l.Tree);
    }

    method SetOperands(l: Node, r: Node)
      requires kind.IsBin? && this in Repr && l.Valid() && r.Valid()
      requires this !in l.Repr && this !in r.Repr && l.Repr !! r.Repr
      modifies this
      ensures kind == old(kind) && left == l && right == r
      ensures Valid() && Repr == old(Repr) + l.Repr + r.Repr && Tree == Bin(kind.op, l.Tree, r.Tree)
    {
      left, right := l, r;
      Repr, Tree := Repr + l.Repr + r.Repr, Bin(kind.op, l.Tree, r.Tree);
    }

    // expr_eliminate_yn: the node stays where it is.
    method EliminateYnInPlace()
      requires Valid()
      modifies Repr
      ensures Valid() && Repr == old(Repr)
      ensures Tree == EliminateYn(old(Tree))
      decreases Repr
    {
      if kind.IsBin? {
        left.EliminateYnInPlace();
        right.EliminateYnInPlace();
        Tree := Bin(kind.op, left.Tree, right.Tree);
        if left.IsConstant(kind.op.Zero()) {
          BecomeSymbol(kind.op.Zero());
        } else if left.IsConstant(kind.op.Unit()) {
          Overwrite(right);
        } else if right.IsConstant(kind.op.Zero()) {
          BecomeSymbol(kind.op.Zero());
        } else if right.IsConstant(kind.op.Unit()) {
          Overwrite(left);
        }
      }
    }

    // expr_trans_bool
    method TransBoolInPlace()
      requires Valid()
      modifies Repr
      ensures Valid() && Repr == old(Repr)
      ensures Tree == TransBool(old(Tree))
      decreases Repr
    {
      if kind.IsBin? {
        left.TransBoolInPlace();
        right.TransBoolInPlace();
        Tree := Bin(kind.op, left.Tree, right.Tree);
      } else if kind.IsNot? {
        left.TransBoolInPlace();
        Tree := Not(left.Tree);
      } else if kind == IsCmp(Neq) && lsym.Type().Tristate? && rsym == SymNo {
        kind := IsVar;
        Tree := Var(lsym);
      }
    }

    // rewrite_m
    method RewriteMInPlace(modules: Sym) returns (r: Node)
      requires Valid()
      modifies Repr
      ensures r.Valid() && fresh(r.Repr - old(Repr))
      ensures r.Tree == RewriteM(old(Tree), modules)
      decreases Repr
    {
      r := this;
      if kind.IsNot? {
        var l := left.RewriteMInPlace(modules);
        SetArg(l);
      } else if kind.IsBin? {
        var l := left.RewriteMInPlace(modules);
        var rt := right.RewriteMInPlace(modules);
        SetOperands(l, rt);
      } else if IsConstant(SymMod) {
        var m := new Node.Symbol(modules);
        r := new Node.Binary(AndOp, this, m);
      }
    }

    // The comparison cases of expr_transform.
    method TransformCompareInPlace()
      requires Valid() && kind.IsCmp?
      modifies this
      ensures Valid() && fresh(Repr - old(Repr))
      ensures Tree == TransformCompare(old(Tree))
    {
      if kind.rel.IsEquality() && lsym.Type().Boolean? {
        if rsym.SymMod? {
          BecomeSymbol(if kind.rel.Eq? then SymNo else SymYes);
        } else if !rsym.Config? {
          if rsym.SymNo? == kind.rel.Eq? {
            left := new Node.Symbol(lsym);
            kind, right := IsNot, null;
            Repr := Repr + left.Repr;
            Tree := Not(left.Tree);
          } else {
            BecomeSymbol(lsym);
          }
        }
      }
    }

    // !(a || b) becomes !a && !b, reusing the node of the disjunction.
    method DeMorgan()
      requires Valid() && kind.IsNot? && left.kind.IsBin? && Tree.arg.Bin?
      modifies Repr
      ensures Valid() && fresh(Repr - old(Repr))
      ensures Tree == Bin(old(left.kind.op).Dual(), Not(old(Tree.arg.left)), Not(old(Tree.arg.right)))
    {
      var op, tmp, l, r := left.kind.op, left, left.left, left.right;
      var negated := new Node.Negation(r);
      tmp.kind, tmp.right, tmp.Repr := IsNot, null, {tmp};
      kind := IsBin(op.Dual());
      tmp.SetArg(l);
      SetOperands(tmp, negated);
    }

    // expr_transform
    method TransformInPlace() returns (r: Node)
      requires Valid()
      modifies Repr
      ensures r.Valid() && fresh(r.Repr - old(Repr))
      ensures r.Tree == Transform(old(Tree))
      decreases Weight(Tree), 1
    {
      r := this;
      match kind
      case IsVar =>
      case IsCmp(_) =>
        TransformCompareInPlace();
      case IsBin(op) =>
        var l := left.TransformInPlace();
        var rt := right.TransformInPlace();
        SetOperands(l, rt);
      case IsNot =>
        var l := left.TransformInPlace();
        SetArg(l);
        r := NegateTransformed();
    }

    // A negation whose operand has been transformed.
    method NegateTransformed() returns (r: Node)
      requires Valid() && kind.IsNot?
      modifies Repr
      ensures r.Valid() && fresh(r.Repr - old(Repr))
      ensures old(Tree.arg.Not?) ==> r.Tree == Transform(old(Tree.arg.arg))
      ensures old(Tree.arg.Cmp?) ==> r.Tree == Cmp(old(Tree.arg.rel).Negate(), old(Tree.arg.lhs), old(Tree.arg.rhs))
      ensures old(Tree.arg.Bin?) ==> r.Tree == Transform(Bin(old(Tree.arg.op).Dual(), Not(old(Tree.arg.left)), Not(old(Tree.arg.right))))
      ensures old(Tree.arg.Var?) ==> r.Tree == Transform(old(Tree))
      decreases Weight(Tree), 0
    {
      r := this;
      match left.kind
      case IsNot =>
        assert Weight(left.Tree) == 2 * Weight(left.left.Tree);
        r := left.left.TransformInPlace();
      case IsCmp(rel) =>
        r := left;
        r.kind := IsCmp(rel.Negate());
        r.Tree := Cmp(rel.Negate(), r.lsym, r.rsym);
      case IsBin(op) =>
        DeMorganLighter(left.Tree);
        DeMorgan();
        r := TransformInPlace();
      case IsVar =>
        if !left.lsym.Config? {
          r := left;
          r.BecomeSymbol(if r.lsym.SymYes? then SymNo else if r.lsym.SymNo? then SymYes else SymMod);
        }
    }
  }
}
