// What the conditions of the menu nodes are after propagation.
module MenuConditions {
  import opened Tristate
  import opened Exprs
  import opened Transformation
  import opened MenuDependencies
  import opened MenuShape

  datatype PropKind = PromptProp | SelectProp | ImplyProp | OtherProp

  datatype Property = Property(kind: PropKind, visible: Option<Expr>, target: Sym)

  // The part of a node that does not change.
  datatype NodeInfo = NodeInfo(sym: Option<Sym>, choice: bool, promptAt: int)

  // A choice passes on itself, a node with a prompt the prompt's condition,
  // an "if" its dependency.
  function PassedOn(info: NodeInfo, dep: Option<Expr>, props: seq<Property>): Option<Expr>
    requires NULL <= info.promptAt < |props|
  {
    if info.choice && info.sym.Some? then Some(Var(info.sym.value))
    else if info.promptAt != NULL then props[info.promptAt].visible
    else dep
  }

  // The final condition of a property, given the final dependency of its node.
  ghost predicate PropertyInherited(sym: Option<Sym>, modules: Sym, base: Option<Expr>, own: Property, r: Property) {
    && r == own.(visible := r.visible) && NnfCond(r.visible)
    && if sym.Some? && !sym.value.Type().Tristate? then
         InheritsNonN(base, own.visible, modules, r.visible)
       else
         Inherits(base, own.visible, modules, r.visible)
  }

  // The final conditions of a node, given what its parent passes on.
  ghost predicate NodeInherited(sym: Option<Sym>, modules: Sym, parentDep: Option<Expr>,
                                dep0: Option<Expr>, props0: seq<Property>,
                                dep: Option<Expr>, props: seq<Property>)
  {
    && NnfCond(dep) && Inherits(parentDep, dep0, modules, dep)
    && |props| == |props0|
    && forall k :: 0 <= k < |props| ==> PropertyInherited(sym, modules, dep, props0[k], props[k])
  }

  // ---- Reverse dependencies ----

  // The reverse dependency of the target is at least min(selector, condition).
  ghost predicate Covered(reverse: map<Sym, Expr>, selector: Sym, p: Property) {
    && p.target in reverse
    && forall env: Env {:trigger Eval(reverse[p.target], env)} ::
         Eval(reverse[p.target], env) >= Min(env.tri(selector), EvalCond(p.visible, env))
  }

  ghost predicate Grows(old_: map<Sym, Expr>, new_: map<Sym, Expr>) {
    forall t :: t in old_ ==>
      && t in new_
      && forall env: Env {:trigger Eval(new_[t], env)} :: Eval(new_[t], env) >= Eval(old_[t], env)
  }

  lemma GrowsKeepsCovered(old_: map<Sym, Expr>, new_: map<Sym, Expr>, selector: Sym, p: Property)
    requires Grows(old_, new_) && Covered(old_, selector, p)
    ensures Covered(new_, selector, p)
  {
    forall env: Env ensures Eval(new_[p.target], env) >= Min(env.tri(selector), EvalCond(p.visible, env)) {
      assert Eval(new_[p.target], env) >= Eval(old_[p.target], env);
    }
  }

  // A select or imply of a symbol counts in the target's reverse dependency.
  ghost predicate Recorded(sym: Option<Sym>, p: Property, revDep: map<Sym, Expr>, implied: map<Sym, Expr>) {
    && (p.kind.SelectProp? && sym.Some? ==> Covered(revDep, sym.value, p))
    && (p.kind.ImplyProp? && sym.Some? ==> Covered(implied, sym.value, p))
  }

  lemma GrowsKeepsRecorded(sym: Option<Sym>, p: Property, revDep0: map<Sym, Expr>, implied0: map<Sym, Expr>,
                           revDep: map<Sym, Expr>, implied: map<Sym, Expr>)
    requires Grows(revDep0, revDep) && Grows(implied0, implied)
    requires Recorded(sym, p, revDep0, implied0)
    ensures Recorded(sym, p, revDep, implied)
  {
    if p.kind.SelectProp? && sym.Some? {
      GrowsKeepsCovered(revDep0, revDep, sym.value, p);
    }
    if p.kind.ImplyProp? && sym.Some? {
      GrowsKeepsCovered(implied0, implied, sym.value, p);
    }
  }

  // rev_dep = rev_dep || (selector && condition)
  function AddReverse(reverse: map<Sym, Expr>, selector: Sym, p: Property): map<Sym, Expr> {
    var before := if p.target in reverse then Some(reverse[p.target]) else None;
    reverse[p.target := AllocOr(before, AllocAnd(Some(Var(selector)), p.visible)).value]
  }

  lemma AddReverseRecords(reverse: map<Sym, Expr>, selector: Sym, p: Property)
    ensures Covered(AddReverse(reverse, selector, p), selector, p)
    ensures Grows(reverse, AddReverse(reverse, selector, p))
    ensures forall env: Env {:trigger Eval(AddReverse(reverse, selector, p)[p.target], env)} ::
              Eval(AddReverse(reverse, selector, p)[p.target], env) ==
              Max(if p.target in reverse then Eval(reverse[p.target], env) else NO, Min(env.tri(selector), EvalCond(p.visible, env)))
  {
    var before := if p.target in reverse then Some(reverse[p.target]) else None;
    var term := AllocAnd(Some(Var(selector)), p.visible);
    forall env: Env
      ensures Eval(AddReverse(reverse, selector, p)[p.target], env) ==
              Max(EvalReverse(before, env), Min(env.tri(selector), EvalCond(p.visible, env)))
    {
      AllocAndEval(Some(Var(selector)), p.visible, env);
      AllocOrEval(before, term, env);
    }
  }

  // ---- All that is recorded ----

  function Lookup(reverse: map<Sym, Expr>, t: Sym): Option<Expr> {
    if t in reverse then Some(reverse[t]) else None
  }

  // The properties of one node recorded one after the other: those of the given
  // kind, and no others.
  function RecordAll(reverse: map<Sym, Expr>, sym: Option<Sym>, ps: seq<Property>, kind: PropKind): map<Sym, Expr> {
    if ps == [] then reverse
    else
      var last := ps[|ps| - 1];
      var before := RecordAll(reverse, sym, ps[..|ps| - 1], kind);
      if sym.Some? && last.kind == kind then AddReverse(before, sym.value, last) else before
  }

  lemma NextRecorded(ps: seq<Property>, k: nat, r: Property)
    requires k < |ps|
    ensures var ps' := ps[k := r];
            ps'[..k + 1] != [] && ps'[..k + 1][..k] == ps[..k] && ps'[..k + 1][k] == r
  {
  }

  // The value of what has been recorded is that of some property recorded.
  ghost predicate Attained(sym: Option<Sym>, ps: seq<Property>, kind: PropKind, t: Sym, env: Env, v: Tri) {
    sym.Some? && exists k :: 0 <= k < |ps| && ps[k].kind == kind && ps[k].target == t &&
                             v == Min(env.tri(sym.value), EvalCond(ps[k].visible, env))
  }

  lemma {:induction false} RecordAllExact(reverse: map<Sym, Expr>, sym: Option<Sym>, ps: seq<Property>, kind: PropKind,
                                          t: Sym, env: Env)
    ensures var v := EvalReverse(Lookup(RecordAll(reverse, sym, ps, kind), t), env);
            v == EvalReverse(Lookup(reverse, t), env) || Attained(sym, ps, kind, t, env, v)
  {
    if ps != [] {
      var n := |ps| - 1;
      var init := ps[..n];
      var before := RecordAll(reverse, sym, init, kind);
      RecordAllExact(reverse, sym, init, kind, t, env);
      var u := EvalReverse(Lookup(before, t), env);
      if Attained(sym, init, kind, t, env, u) {
        var k :| 0 <= k < |init| && init[k].kind == kind && init[k].target == t &&
                 u == Min(env.tri(sym.value), EvalCond(init[k].visible, env));
        assert ps[k] == init[k];
        assert Attained(sym, ps, kind, t, env, u);
      }
      if sym.Some? && ps[n].kind == kind && ps[n].target == t {
        AddReverseRecords(before, sym.value, ps[n]);
      }
    }
  }

  // Every value recorded for a target is that of some property of a node whose
  // conditions are final.
  ghost predicate OnlyRecorded(t: Texts, props: seq<seq<Property>>, propagated: seq<bool>, reverse: map<Sym, Expr>, kind: PropKind) {
    && |props| == |propagated| == |t.info|
    && forall target: Sym, env: Env {:trigger EvalReverse(Lookup(reverse, target), env)} ::
         var v := EvalReverse(Lookup(reverse, target), env);
         v == NO || exists i :: 0 <= i < |t.info| && propagated[i] && Attained(t.info[i].sym, props[i], kind, target, env, v)
  }

  lemma OnlyRecordedStore(t: Texts, props: seq<seq<Property>>, propagated: seq<bool>, reverse: map<Sym, Expr>, kind: PropKind,
                          m: int, ps: seq<Property>)
    requires OnlyRecorded(t, props, propagated, reverse, kind) && 0 <= m < |props| && !propagated[m]
    ensures OnlyRecorded(t, props[m := ps], propagated[m := true], RecordAll(reverse, t.info[m].sym, ps, kind), kind)
  {
    var props', propagated' := props[m := ps], propagated[m := true];
    var reverse' := RecordAll(reverse, t.info[m].sym, ps, kind);
    forall target: Sym, env: Env
      ensures var v := EvalReverse(Lookup(reverse', target), env);
              v == NO || exists i :: 0 <= i < |t.info| && propagated'[i] && Attained(t.info[i].sym, props'[i], kind, target, env, v)
    {
      RecordAllExact(reverse, t.info[m].sym, ps, kind, target, env);
      var v := EvalReverse(Lookup(reverse', target), env);
      if v != NO && v == EvalReverse(Lookup(reverse, target), env) {
        var i :| 0 <= i < |t.info| && propagated[i] && Attained(t.info[i].sym, props[i], kind, target, env, v);
        assert props'[i] == props[i] && propagated'[i];
      } else if v != NO {
        assert Attained(t.info[m].sym, props'[m], kind, target, env, v);
      }
    }
  }

  // The menu as it was written.
  datatype Texts = Texts(info: seq<NodeInfo>, modules: Sym, up0: seq<int>,
                         dep0: seq<Option<Expr>>, props0: seq<seq<Property>>)
  {
    ghost predicate Ok() {
      && |info| == |up0| == |dep0| == |props0|
      && (forall i :: 0 <= i < |info| ==> NULL <= info[i].promptAt < |props0[i]|)
      && (forall i :: 0 < i < |info| ==> 0 <= up0[i] < i)
    }

    // Node i has its final conditions, and its selects are recorded.
    ghost predicate NodeFinal(i: int, parentDep: Option<Expr>, d: Option<Expr>, ps: seq<Property>,
                              rev: map<Sym, Expr>, imp: map<Sym, Expr>)
      requires Ok() && 0 <= i < |info|
    {
      && NodeInherited(info[i].sym, modules, parentDep, dep0[i], props0[i], d, ps)
      && forall k :: 0 <= k < |ps| ==> Recorded(info[i].sym, ps[k], rev, imp)
    }

    lemma StaysFinal(i: int, parentDep: Option<Expr>, d: Option<Expr>, ps: seq<Property>,
                     rev0: map<Sym, Expr>, imp0: map<Sym, Expr>, rev: map<Sym, Expr>, imp: map<Sym, Expr>)
      requires Ok() && 0 <= i < |info|
      requires NodeFinal(i, parentDep, d, ps, rev0, imp0)
      requires Grows(rev0, rev) && Grows(imp0, imp)
      ensures NodeFinal(i, parentDep, d, ps, rev, imp)
    {
      forall k | 0 <= k < |ps| ensures Recorded(info[i].sym, ps[k], rev, imp) {
        GrowsKeepsRecorded(info[i].sym, ps[k], rev0, imp0, rev, imp);
      }
    }
  }

  // Every propagated node has the final conditions obtained from its parent
  // of old; every other node has its conditions as written.
  ghost predicate Finals(t: Texts, dep: seq<Option<Expr>>, props: seq<seq<Property>>, propagated: seq<bool>,
                         rev: map<Sym, Expr>, imp: map<Sym, Expr>)
  {
    && t.Ok() && |dep| == |props| == |propagated| == |t.info|
    && (forall i :: 0 <= i < |t.info| ==> |props[i]| == |t.props0[i]|)
    && (forall i :: 0 < i < |t.info| && propagated[i] ==>
          var q := t.up0[i];
          propagated[q] && t.NodeFinal(i, PassedOn(t.info[q], dep[q], props[q]), dep[i], props[i], rev, imp))
    && (forall i :: 0 < i < |t.info| && !propagated[i] ==> dep[i] == t.dep0[i] && props[i] == t.props0[i])
  }

  lemma FinalsGrow(t: Texts, dep: seq<Option<Expr>>, props: seq<seq<Property>>, propagated: seq<bool>,
                   rev0: map<Sym, Expr>, imp0: map<Sym, Expr>, rev: map<Sym, Expr>, imp: map<Sym, Expr>)
    requires Finals(t, dep, props, propagated, rev0, imp0)
    requires Grows(rev0, rev) && Grows(imp0, imp)
    ensures Finals(t, dep, props, propagated, rev, imp)
  {
    forall i | 0 < i < |t.info| && propagated[i]
      ensures var q := t.up0[i];
        t.NodeFinal(i, PassedOn(t.info[q], dep[q], props[q]), dep[i], props[i], rev, imp)
    {
      var q := t.up0[i];
      t.StaysFinal(i, PassedOn(t.info[q], dep[q], props[q]), dep[i], props[i], rev0, imp0, rev, imp);
    }
  }

  // Recording the final conditions of one more node.
  lemma FinalsStore(t: Texts, dep: seq<Option<Expr>>, props: seq<seq<Property>>, propagated: seq<bool>,
                    rev: map<Sym, Expr>, imp: map<Sym, Expr>, m: int, d: Option<Expr>, ps: seq<Property>)
    requires Finals(t, dep, props, propagated, rev, imp)
    requires 0 < m < |t.info| && !propagated[m] && propagated[t.up0[m]]
    requires t.NodeFinal(m, PassedOn(t.info[t.up0[m]], dep[t.up0[m]], props[t.up0[m]]), d, ps, rev, imp)
    ensures Finals(t, dep[m := d], props[m := ps], propagated[m := true], rev, imp)
  {
    forall i | 0 < i < |t.info| && propagated[m := true][i]
      ensures t.up0[i] != m
    {
    }
  }

  ghost predicate SameLength(t: Texts, next: seq<int>, parent: seq<int>, list: seq<int>, end: seq<int>, up: seq<int>,
                             dep: seq<Option<Expr>>, props: seq<seq<Property>>, propagated: seq<bool>, visits: seq<nat>)
  {
    && t.Ok() && |t.info| > 0
    && |next| == |parent| == |list| == |end| == |up| == |t.info|
    && |dep| == |props| == |propagated| == |visits| == |t.info|
    && (forall i :: 0 <= i < |t.info| ==> |props[i]| == |t.props0[i]|)
  }

  // The root passes on a condition in normal form, and a node that is not
  // propagated is still where it was written.
  ghost predicate Conditions(t: Texts, up: seq<int>, dep: seq<Option<Expr>>, props: seq<seq<Property>>,
                             propagated: seq<bool>, rev: map<Sym, Expr>, imp: map<Sym, Expr>)
  {
    && Finals(t, dep, props, propagated, rev, imp)
    && |t.info| == |up| > 0
    && propagated[0] && NnfCond(PassedOn(t.info[0], dep[0], props[0]))
    && OnlyRecorded(t, props, propagated, rev, SelectProp) && OnlyRecorded(t, props, propagated, imp, ImplyProp)
    && (forall i :: 0 < i < |up| && !propagated[i] ==> up[i] == t.up0[i])
  }

  lemma MovingKeepsConditions(t: Texts, up: seq<int>, up': seq<int>, dep: seq<Option<Expr>>, props: seq<seq<Property>>,
                              propagated: seq<bool>, rev: map<Sym, Expr>, imp: map<Sym, Expr>)
    requires Conditions(t, up, dep, props, propagated, rev, imp)
    requires |up'| == |up| && forall i :: 0 < i < |up| && up'[i] != up[i] ==> propagated[i]
    ensures Conditions(t, up', dep, props, propagated, rev, imp)
  {
  }

  // ---- The whole chain of ancestors ----

  // The conjunction of the conditions written along the chain of parents of
  // old, down to the dependency of node i; root is what the root passes on.
  ghost function ChainDep(t: Texts, root: Option<Expr>, i: int, env: Env): Tri
    requires t.Ok() && 0 <= i < |t.info|
    decreases i, 0
  {
    if i == 0 then EvalCond(root, env)
    else Min(ChainPassed(t, root, t.up0[i], env), EvalCond(t.dep0[i], WithModules(env, t.modules)))
  }

  ghost function ChainPassed(t: Texts, root: Option<Expr>, i: int, env: Env): Tri
    requires t.Ok() && 0 <= i < |t.info|
    decreases i, 1
  {
    var n := t.info[i];
    if i == 0 then EvalCond(root, env)
    else if n.choice && n.sym.Some? then env.tri(n.sym.value)
    else if n.promptAt != NULL then
      Min(ChainDep(t, root, i, env), EvalCond(t.props0[i][n.promptAt].visible, WithModules(env, t.modules)))
    else ChainDep(t, root, i, env)
  }

  ghost predicate AllComparable(t: Texts, env: Env)
    requires t.Ok()
  {
    forall i :: 0 <= i < |t.info| ==>
      ComparableCond(t.dep0[i], env) && forall k :: 0 <= k < |t.props0[i]| ==> ComparableCond(t.props0[i][k].visible, env)
  }

  // Ancestors whose prompt conditions keep their exact value.
  ghost predicate ExactAncestors(t: Texts, i: int)
    requires t.Ok() && 0 <= i < |t.info|
    decreases i
  {
    i > 0 ==>
      var q := t.up0[i];
      && (q > 0 && t.info[q].promptAt != NULL && t.info[q].sym.Some? && !t.info[q].choice ==>
            t.info[q].sym.value.Type().Tristate?)
      && ExactAncestors(t, q)
  }

  // The final dependency of a node is never more than the conjunction along
  // its ancestors, is n exactly when that is, and has exactly its value when
  // the ancestors with prompts are menus, comments or tristate symbols.
  lemma {:induction false} ChainExact(t: Texts, dep: seq<Option<Expr>>, props: seq<seq<Property>>, propagated: seq<bool>,
                                      rev: map<Sym, Expr>, imp: map<Sym, Expr>, i: int, env: Env)
    requires Finals(t, dep, props, propagated, rev, imp)
    requires 0 < i < |t.info| && propagated[i]
    requires WellTyped(env) && AllComparable(t, env)
    ensures var root := PassedOn(t.info[0], dep[0], props[0]);
            var chain := ChainDep(t, root, i, env);
            && EvalCond(dep[i], env) <= chain
            && (EvalCond(dep[i], env) == NO <==> chain == NO)
            && (ExactAncestors(t, i) ==> EvalCond(dep[i], env) == chain)
    decreases i
  {
    var q := t.up0[i];
    var root := PassedOn(t.info[0], dep[0], props[0]);
    assert t.NodeFinal(i, PassedOn(t.info[q], dep[q], props[q]), dep[i], props[i], rev, imp);
    assert ComparableCond(t.dep0[i], env);
    if q > 0 {
      ChainExact(t, dep, props, propagated, rev, imp, q, env);
      var r := t.up0[q];
      assert t.NodeFinal(q, PassedOn(t.info[r], dep[r], props[r]), dep[q], props[q], rev, imp);
      var k := t.info[q].promptAt;
      if k != NULL {
        assert PropertyInherited(t.info[q].sym, t.modules, dep[q], t.props0[q][k], props[q][k]);
        assert ComparableCond(t.props0[q][k].visible, env);
      }
    }
  }
}
