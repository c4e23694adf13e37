// The recursive dependency checker: a depth-first search with a CHECK flag for
// the symbols on the stack and a CHECKED flag for all symbols entered.
module CycleCheck {
  import opened Exprs
  import opened Symbols
  import opened DependencyGraph

  // ---- The search ----

  class Checker {
    const k: Kconfig
    var check: set<Sym>
    var checked: set<Sym>
    var stack: seq<Sym>
    var reports: seq<seq<Sym>>
    // The symbols in the order they were left, and how often each was entered.
    ghost var order: seq<Sym>
    ghost var entered: multiset<Sym>

    constructor (k: Kconfig)
      ensures this.k == k && Inv() && stack == [] && reports == [] && checked == {}
    {
      this.k, check, checked, stack, reports, order, entered := k, {}, {}, [], [], [], multiset{};
    }

    ghost predicate Inv()
      reads this
    {
      && (forall x :: x in check <==> x in stack)
      && (forall i, j :: 0 <= i < j < |stack| ==> stack[i] != stack[j])
      && check <= checked
      && Path(k, stack)
      && (forall r :: r in reports ==> Cycle(k, r) && forall x :: x in r ==> x in checked)
      && (forall x :: entered[x] == if x in checked then 1 else 0)
      && (reports == [] ==> Topological(k, order) && forall x :: x in order <==> x in checked && x !in check)
    }

    // What one step down leaves behind: the stack as it was; and if a symbol
    // is handed back, it is one of the stack, and was reported.
    twostate predicate Returned(new r: Option<Sym>)
      reads this
    {
      && Inv() && stack == old(stack) && check == old(check) && old(checked) <= checked
      && old(reports) <= reports
      && (r.Some? ==> r.value in stack && reports != [])
      && (forall x :: x in old(order) ==> x in order)
    }

    // sym_check_print_recursive: the part of the stack from s on is a cycle.
    method Report(s: Sym)
      requires Inv() && s in check
      requires Edge(k, stack[|stack| - 1], s)
      modifies `reports
      ensures Inv() && old(reports) < reports
    {
      var i := 0;
      while stack[i] != s
        invariant 0 <= i < |stack| && s !in stack[..i]
        decreases |stack| - i
      {
        i := i + 1;
      }
      reports := reports + [stack[i..]];
    }

    // sym_check_expr_deps
    method CheckExpr(e: Expr, ghost all: set<Sym>) returns (r: Option<Sym>)
      requires Inv() && stack != [] && checked <= all
      requires forall t :: Contains(e, t) ==> Edge(k, stack[|stack| - 1], t) && t in all
      requires forall a, b :: a in all && Edge(k, a, b) ==> b in all
      modifies this
      ensures Returned(r) && checked <= all
      ensures r.None? && reports == [] ==> forall x :: Contains(e, x) ==> x in order
      decreases all - checked, 2, e
    {
      match e
      case Var(s) =>
        r := CheckDeps(s, all);
      case Not(a) =>
        assert forall t :: Contains(a, t) ==> Contains(e, t);
        r := CheckExpr(a, all);
      case Bin(_, left, right) =>
        assert forall t :: Contains(left, t) || Contains(right, t) ==> Contains(e, t);
        r := CheckExpr(left, all);
        if r.None? {
          r := CheckExpr(right, all);
        }
      case Cmp(_, a, b) =>
        r := CheckDeps(a, all);
        if r.None? {
          r := CheckDeps(b, all);
        }
    }

    // sym_check_sym_deps, for the symbol just put on the stack
    method CheckSymDeps(s: Sym, ghost all: set<Sym>) returns (r: Option<Sym>)
      requires Inv() && stack != [] && stack[|stack| - 1] == s && s in all && checked <= all
      requires forall a, b :: a in all && Edge(k, a, b) ==> b in all
      modifies this
      ensures Returned(r) && checked <= all
      ensures r.None? && reports == [] ==> forall x :: Edge(k, s, x) ==> x in order
      decreases all - checked, 3
    {
      var es := Followed(k, s);
      var i := 0;
      r := None;
      while i < |es|
        invariant 0 <= i <= |es|
        invariant Returned(r) && checked <= all && r.None?
        invariant reports == [] ==> forall j, x :: 0 <= j < i && Contains(es[j], x) ==> x in order
      {
        r := CheckExpr(es[i], all);
        if r.Some? {
          return;
        }
        i := i + 1;
      }
    }

    // sym_check_deps
    method CheckDeps(s: Sym, ghost all: set<Sym>) returns (r: Option<Sym>)
      requires Inv() && s in all && checked <= all
      requires stack != [] ==> Edge(k, stack[|stack| - 1], s)
      requires forall a, b :: a in all && Edge(k, a, b) ==> b in all
      modifies this
      ensures Returned(r) && checked <= all
      ensures r.None? && reports == [] ==> s in order
      ensures stack == [] ==> r.None?
      decreases all - checked, 1
    {
      if s in check {
        Report(s);
        return Some(s);
      }
      if s in checked {
        return None;
      }
      r := Visit(s, all);
    }

    // A symbol not entered before: its dependencies are checked with it on the
    // stack.
    method Visit(s: Sym, ghost all: set<Sym>) returns (r: Option<Sym>)
      requires Inv() && s in all && s !in checked && checked <= all
      requires stack != [] ==> Edge(k, stack[|stack| - 1], s)
      requires forall a, b :: a in all && Edge(k, a, b) ==> b in all
      modifies this
      ensures Returned(r) && checked <= all
      ensures r.None? && reports == [] ==> s in order
      ensures stack == [] ==> r.None?
      decreases all - checked, 0
    {
      Enter(s);
      r := CheckSymDeps(s, all);
      Leave(s);
      if r == Some(s) {
        r := None;
      }
    }

    method Enter(s: Sym)
      requires Inv() && s !in checked
      requires stack != [] ==> Edge(k, stack[|stack| - 1], s)
      modifies this
      ensures Inv() && stack == old(stack) + [s] && check == old(check) + {s} && checked == old(checked) + {s}
      ensures reports == old(reports) && order == old(order)
    {
      check, checked, stack, entered := check + {s}, checked + {s}, stack + [s], entered + multiset{s};
    }

    method Leave(s: Sym)
      requires Inv() && stack != [] && stack[|stack| - 1] == s
      requires reports == [] ==> forall x :: Edge(k, s, x) ==> x in order
      modifies this
      ensures Inv() && stack == old(stack)[..|old(stack)| - 1] && check == old(check) - {s} && checked == old(checked)
      ensures reports == old(reports) && order == old(order) + [s]
    {
      if reports == [] {
        TopologicalExtends(k, order, s);
      }
      check, stack, order := check - {s}, stack[..|stack| - 1], order + [s];
    }

    // Checking all symbols, as is done after parsing.
    method CheckAll(syms: seq<Sym>)
      requires Inv() && stack == [] && checked == {} && reports == []
      requires forall a, b :: a in syms && Edge(k, a, b) ==> b in syms
      modifies this
      ensures Inv() && stack == [] && check == {}
      ensures forall x :: entered[x] <= 1
      ensures reports == [] <==> !exists p :: Cycle(k, p) && forall x :: x in p ==> x in syms
      ensures reports == [] ==> Topological(k, order) && forall s :: s in syms ==> s in order
    {
      ghost var all := set s | s in syms;
      var i := 0;
      while i < |syms|
        invariant 0 <= i <= |syms|
        invariant Inv() && stack == [] && checked <= all
        invariant reports == [] ==> forall s :: s in syms[..i] ==> s in order
      {
        var r := CheckDeps(syms[i], all);
        i := i + 1;
      }
      if reports != [] {
        assert Cycle(k, reports[0]);
      } else {
        forall p | Cycle(k, p) && forall x :: x in p ==> x in syms ensures false {
          assert p[0] in order;
          var j :| 0 <= j < |order| && order[j] == p[0];
          NoCycleInOrder(k, order, p, j, 0);
        }
      }
    }
  }
}
