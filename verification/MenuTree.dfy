// menu_finalize: dependency propagation, automatic submenus and flattening on
// the next/list/parent pointers of the menu nodes.
module MenuTree {
  import opened Tristate
  import opened Exprs
  import opened MenuDependencies
  import opened MenuShape
  import opened MenuConditions
  import opened Transformation
  import opened TransComparison

  // ---- The menu nodes ----

  class Menus {
    const info: seq<NodeInfo>
    const modules: Sym

    // Pointers to nodes are node numbers; 0 is the root.
    var next: seq<int>
    var parent: seq<int>
    var list: seq<int>
    var dep: seq<Option<Expr>>
    var props: seq<seq<Property>>
    var revDep: map<Sym, Expr>
    var implied: map<Sym, Expr>

    // The tree the pointers stand for, and how often a node was finalised.
    ghost var end: seq<int>
    ghost var up: seq<int>
    ghost var visits: seq<nat>
    ghost var propagated: seq<bool>

    // The tree and the conditions as they were written.
    ghost const up0: seq<int>
    ghost const dep0: seq<Option<Expr>>
    ghost const props0: seq<seq<Property>>

    // The menu as it was read.
    constructor (info: seq<NodeInfo>, modules: Sym, dep: seq<Option<Expr>>, props: seq<seq<Property>>,
                 next: seq<int>, list: seq<int>, parent: seq<int>, ghost end: seq<int>)
      requires LinkedTo(end, parent, next, list)
      requires |info| == |dep| == |props| == |end| && forall i :: 0 <= i < |info| ==> NULL <= info[i].promptAt < |props[i]|
      requires NnfCond(PassedOn(info[0], dep[0], props[0]))
      ensures Valid() && ParentsRight() && this.info == info
      ensures this.dep == dep0 == dep && this.props == props0 == props && up0 == this.parent == parent
      ensures forall i :: 0 < i < |info| ==> !propagated[i]
      ensures forall i :: 0 <= i < |info| ==> visits[i] == 0
    {
      NestedFacts(end, parent);
      this.info, this.modules, this.dep, this.props := info, modules, dep, props;
      this.next, this.list, this.parent := next, list, parent;
      revDep, implied := map[], map[];
      this.end, up, up0, dep0, props0 := end, parent, parent, dep, props;
      visits, propagated := seq(|info|, _ => 0), seq(|info|, i => i == 0);
    }

    // The menu as it was written.
    ghost function AsWritten(): Texts {
      Texts(info, modules, up0, dep0, props0)
    }

    ghost predicate Sizes()
      reads this
    {
      SameLength(AsWritten(), next, parent, list, end, up, dep, props, propagated, visits)
    }

    ghost predicate Linked()
      reads this
    {
      LinkedTo(end, up, next, list)
    }

    function HasPrompt(i: int): bool
      requires 0 <= i < |info|
    {
      info[i].promptAt != NULL
    }

    // What a child of p inherits.
    function ParentDep(p: int): Option<Expr>
      reads this
      requires 0 <= p < |info| && |dep| == |props| == |info|
      requires NULL <= info[p].promptAt < |props[p]|
    {
      PassedOn(info[p], dep[p], props[p])
    }

    // What is compared when deciding about submenus.
    function OwnCondition(i: int): Option<Expr>
      reads this
      requires 0 <= i < |info| && |dep| == |props| == |info|
      requires NULL <= info[i].promptAt < |props[i]|
    {
      if HasPrompt(i) then props[i][info[i].promptAt].visible else dep[i]
    }

    // What the items after the symbol p are compared with: only its prompt.
    function BaseCondition(p: int): Option<Expr>
      reads this
      requires 0 <= p < |info| && |props| == |info|
      requires NULL <= info[p].promptAt < |props[p]|
    {
      if HasPrompt(p) then props[p][info[p].promptAt].visible else None
    }

    ghost predicate Valid()
      reads this
    {
      && Sizes() && Linked()
      && Conditions(AsWritten(), up, dep, props, propagated, revDep, implied)
    }

    // From p to the end of its list nothing has happened yet, except that the
    // nodes of the list itself have their final conditions.
    ghost predicate Ready(p: int)
      reads this
      requires Sizes() && 0 <= p < |info|
    {
      forall i :: p <= i < Limit(end, up, p) && i < |info| ==>
        (propagated[i] <==> up[i] == up[p]) && (i > p ==> parent[i] == up[i])
    }

    // The nodes below p are final; only the children themselves may still be
    // submenus without a prompt.
    ghost predicate SettledBelow(p: int)
      reads this
      requires Sizes() && 0 <= p < |info|
    {
      forall i :: p < i < end[p] && i < |info| ==>
        propagated[i] && parent[i] == up[i] && (up[i] != p && list[i] != NULL ==> HasPrompt(i))
    }

    ghost predicate Settled(p: int)
      reads this
      requires Sizes() && 0 <= p < |info|
    {
      forall i :: p < i < end[p] && i < |info| ==>
        propagated[i] && parent[i] == up[i] && (list[i] != NULL ==> HasPrompt(i))
    }

    twostate predicate SameOutside(lo: int, hi: int)
      reads this
      requires old(Sizes()) && Sizes()
    {
      forall i :: 0 <= i < |info| && (i < lo || hi <= i) ==>
        && end[i] == old(end[i]) && up[i] == old(up[i]) && parent[i] == old(parent[i])
        && propagated[i] == old(propagated[i]) && visits[i] == old(visits[i]) && list[i] == old(list[i])
    }

    // Conditions once final are not touched again.
    twostate predicate KeepsFinal()
      reads this
      requires old(Sizes()) && Sizes()
    {
      forall i :: 0 <= i < |info| && old(propagated[i]) ==>
        propagated[i] && dep[i] == old(dep[i]) && props[i] == old(props[i])
    }

    // Node i may stand in the submenu of p.
    ghost predicate Justified(p: int, i: int)
      reads this
      requires Sizes() && 0 <= p < |info| && 0 <= i < |info|
    {
      info[p].sym.Some? ==> SubmenuJustified(OwnCondition(i), info[p].sym.value, BaseCondition(p))
    }

    // Node e is not to be taken into the submenu of p: it does not directly
    // depend on p's symbol; if p has no prompt, or an unconditional one, it does
    // not mention the symbol at all; and else its condition is no superset of
    // that of p's prompt.
    ghost predicate LeftOut(p: int, e: int)
      reads this
      requires Sizes() && 0 <= p < |info| && info[p].sym.Some? && 0 <= e < |info|
    {
      Refused(OwnCondition(e), info[p].sym.value, BaseCondition(p))
    }

    // The submenu of p could not have taken in the node after it.
    ghost predicate SubmenuComplete(p: int)
      reads this
      requires Sizes() && 0 <= p < |info|
    {
      info[p].sym.Some? && end[p] < Limit(end, up, p) && 0 <= end[p] < |info| ==> LeftOut(p, end[p])
    }

    twostate predicate Visited(lo: int, hi: int)
      reads this
      requires old(Sizes()) && Sizes()
    {
      forall i :: 0 <= i < |info| && lo <= i < hi ==> visits[i] == old(visits[i]) + 1
    }

    // ---- Dependency propagation ----

    // One property of a node whose own dependency is final.
    method PropagateProperty(base: Option<Expr>, sym: Option<Sym>, p: Property) returns (r: Property)
      requires NnfCond(base)
      modifies `revDep, `implied
      ensures PropertyInherited(sym, modules, base, p, r)
      ensures Grows(old(revDep), revDep) && Grows(old(implied), implied)
      ensures Recorded(sym, r, revDep, implied)
      ensures revDep == if sym.Some? && r.kind == SelectProp then AddReverse(old(revDep), sym.value, r) else old(revDep)
      ensures implied == if sym.Some? && r.kind == ImplyProp then AddReverse(old(implied), sym.value, r) else old(implied)
    {
      var visible;
      if sym.Some? && !sym.value.Type().Tristate? {
        visible := InheritBool(base, p.visible, modules);
      } else {
        visible := Inherit(base, p.visible, modules);
      }
      r := p.(visible := visible);
      if sym.Some? {
        if p.kind.SelectProp? {
          AddReverseRecords(revDep, sym.value, r);
          revDep := AddReverse(revDep, sym.value, r);
        } else if p.kind.ImplyProp? {
          AddReverseRecords(implied, sym.value, r);
          implied := AddReverse(implied, sym.value, r);
        }
      }
    }

    // All properties of node m.
    method PropagateProperties(m: int, base: Option<Expr>) returns (ps: seq<Property>)
      requires 0 <= m < |info| && m < |props| && NnfCond(base)
      modifies `revDep, `implied
      ensures |ps| == |props[m]|
      ensures forall j :: 0 <= j < |ps| ==>
                && PropertyInherited(info[m].sym, modules, base, props[m][j], ps[j])
                && Recorded(info[m].sym, ps[j], revDep, implied)
      ensures Grows(old(revDep), revDep) && Grows(old(implied), implied)
      ensures revDep == RecordAll(old(revDep), info[m].sym, ps, SelectProp)
      ensures implied == RecordAll(old(implied), info[m].sym, ps, ImplyProp)
    {
      ps := props[m];
      var k := 0;
      while k < |ps|
        invariant 0 <= k <= |ps| == |props[m]|
        invariant revDep == RecordAll(old(revDep), info[m].sym, ps[..k], SelectProp)
        invariant implied == RecordAll(old(implied), info[m].sym, ps[..k], ImplyProp)
        invariant Grows(old(revDep), revDep) && Grows(old(implied), implied)
        invariant forall j :: k <= j < |ps| ==> ps[j] == props[m][j]
        invariant forall j :: 0 <= j < k ==>
                    && PropertyInherited(info[m].sym, modules, base, props[m][j], ps[j])
                    && Recorded(info[m].sym, ps[j], revDep, implied)
      {
        ghost var revDep0, implied0 := revDep, implied;
        var r := PropagateProperty(base, info[m].sym, ps[k]);
        forall j | 0 <= j < k ensures Recorded(info[m].sym, ps[j], revDep, implied) {
          GrowsKeepsRecorded(info[m].sym, ps[j], revDep0, implied0, revDep, implied);
        }
        NextRecorded(ps, k, r);
        ps := ps[k := r];
        k := k + 1;
      }
      assert ps[..k] == ps;
    }

    lemma ParentDepNnf(p: int)
      requires Valid() && 0 <= p < |info| && propagated[p]
      ensures NnfCond(ParentDep(p))
    {
      if p > 0 {
        var t, q, k := AsWritten(), up0[p], info[p].promptAt;
        assert t.NodeFinal(p, PassedOn(t.info[q], dep[q], props[q]), dep[p], props[p], revDep, implied);
        assert HasPrompt(p) ==> PropertyInherited(info[p].sym, modules, dep[p], props0[p][k], props[p][k]);
      }
    }

    method PropagateNode(p: int, m: int)
      requires Valid() && 0 < m < |info| && !propagated[m] && up0[m] == p && propagated[p]
      modifies `dep, `props, `revDep, `implied, `propagated
      ensures Valid()
      ensures propagated == old(propagated)[m := true] && KeepsFinal()
    {
      ParentDepNnf(p);
      var base := Inherit(ParentDep(p), dep[m], modules);
      var ps := PropagateProperties(m, base);
      OnlyRecordedStore(AsWritten(), props, propagated, old(revDep), SelectProp, m, ps);
      OnlyRecordedStore(AsWritten(), props, propagated, old(implied), ImplyProp, m, ps);
      FinalsGrow(AsWritten(), dep, props, propagated, old(revDep), old(implied), revDep, implied);
      FinalsStore(AsWritten(), dep, props, propagated, revDep, implied, m, base, ps);
      dep, props, propagated := dep[m := base], props[m := ps], propagated[m := true];
    }

    // The first loop over the children of p.
    method PropagateChildren(p: int)
      requires Valid() && 0 <= p < |info| && propagated[p]
      requires forall i :: 0 < i < |info| && up[i] == p ==> !propagated[i]
      modifies `dep, `props, `revDep, `implied, `propagated
      ensures Valid()
      ensures forall i :: 0 <= i < |info| ==> (propagated[i] <==> old(propagated[i]) || up[i] == p)
      ensures KeepsFinal()
    {
      ListStep(end, up, next, list, p);
      InsideParent(end, up, next, list, p);
      var m := list[p];
      while m != NULL
        invariant Valid() && KeepsFinal()
        invariant m == NULL || (p < m < end[p] && up[m] == p)
        invariant forall i :: 0 <= i < |info| ==>
                    (propagated[i] <==> old(propagated[i]) || (up[i] == p && (m == NULL || i < m)))
        decreases |info| - (if m == NULL then |info| else m)
      {
        PropagateNode(p, m);
        NextStep(end, up, next, list, m);
        m := next[m];
      }
    }

    // ---- Flattening ----

    // The loop that makes p the parent of the children of m.
    method HandOver(p: int, m: int) returns (last: int)
      requires Valid() && 0 <= p < m < |info| && list[m] != NULL
      modifies `parent
      ensures |parent| == |info|
      ensures forall i :: 0 <= i < |info| ==> parent[i] == if up[i] == m then p else old(parent[i])
      ensures m < last < |info| && up[last] == m && next[last] == NULL
    {
      ListStep(end, up, next, list, m);
      InsideParent(end, up, next, list, m);
      last := list[m];
      parent := parent[last := p];
      while next[last] != NULL
        invariant m < last < end[m] <= |info| && up[last] == m
        invariant |parent| == |info|
        invariant forall i :: 0 <= i < |info| ==>
                    parent[i] == if up[i] == m && i <= last then p else old(parent[i])
        decreases |info| - last
      {
        NextStep(end, up, next, list, last);
        last := next[last];
        parent := parent[last := p];
      }
      NextStep(end, up, next, list, last);
    }

    // The children of m are spliced into the list of m, after m.
    method FlattenNode(p: int, m: int)
      requires Valid() && 0 <= p < m < |info| && up[m] == p && list[m] != NULL
      requires forall i :: m < i < end[m] && i < |info| ==> propagated[i]
      modifies `next, `parent, `list, `end, `up
      ensures Valid()
      ensures list == old(list)[m := NULL]
      ensures end == old(end)[m := m + 1] && up == FlattenUp(old(up), m)
      ensures forall i :: 0 <= i < |info| ==> parent[i] == if old(up[i]) == m then p else old(parent[i])
    {
      InsideParent(end, up, next, list, m);
      var last := HandOver(p, m);
      FlattenLinked(end, up, next, list, m, last);
      MovingKeepsConditions(AsWritten(), up, FlattenUp(up, m), dep, props, propagated, revDep, implied);
      next := next[last := next[m]];
      next := next[m := list[m]];
      list := list[m := NULL];
      end, up := end[m := m + 1], FlattenUp(up, m);
    }

    // One child of p; afterwards the nodes up to the next child are settled.
    method FlattenStep(p: int, m: int)
      requires Valid() && 0 <= p < m < |info|
      requires m < end[p] && up[m] == p && SettledBelow(p)
      modifies `next, `parent, `list, `end, `up
      ensures Valid() && SettledBelow(p) && end[p] == old(end[p]) && SameOutside(p + 1, end[p])
      ensures forall i :: 0 <= i < m ==> list[i] == old(list[i])
      ensures list[m] != NULL ==> HasPrompt(m)
      ensures next[m] == NULL || (m < next[m] < end[p] && next[m] < |info| && up[next[m]] == p)
      ensures forall i :: m < i < (if next[m] == NULL then end[p] else next[m]) && i < |info| ==> up[i] != p
    {
      ListStep(end, up, next, list, m);
      NextStep(end, up, next, list, m);
      if list[m] != NULL && !HasPrompt(m) {
        InsideParent(end, up, next, list, m);
        FlattenNode(p, m);
        NextStep(end, up, next, list, m);
      }
    }

    // The last loop over the children of p.
    method FlattenChildren(p: int)
      requires Valid() && 0 <= p < |info| && SettledBelow(p)
      modifies `next, `parent, `list, `end, `up
      ensures Valid() && Settled(p) && end[p] == old(end[p]) && SameOutside(p + 1, end[p])
    {
      ListStep(end, up, next, list, p);
      var m := list[p];
      while m != NULL
        invariant Valid() && SettledBelow(p) && end[p] == old(end[p]) && SameOutside(p + 1, end[p])
        invariant m == NULL || (p < m < end[p] && m < |info| && up[m] == p)
        invariant forall i :: p < i < end[p] && i < |info| && (m == NULL || i < m) ==> (list[i] != NULL ==> HasPrompt(i))
        decreases |info| - (if m == NULL then |info| else m)
      {
        FlattenStep(p, m);
        m := next[m];
      }
    }

    // ---- The recursion ----

    lemma FirstChild(p: int)
      requires Valid() && 0 <= p < |info|
      ensures list[p] == NULL <==> end[p] == p + 1
      ensures list[p] != NULL ==> list[p] == p + 1 < end[p] <= |info| && up[p + 1] == p
    {
      ListStep(end, up, next, list, p);
    }

    // Second loop over the children of p: each child is finalised in turn, and
    // may take its following siblings into its own list while doing so.
    method FinalizeChildren(p: int)
      requires Valid() && 0 <= p < |info|
      requires forall i :: p < i < end[p] && i < |info| ==> (propagated[i] <==> up[i] == p) && parent[i] == up[i]
      modifies this
      ensures Valid() && end[p] == old(end[p])
      ensures SettledBelow(p) && SameOutside(p + 1, end[p]) && Visited(p + 1, end[p]) && KeepsFinal()
      decreases |info| - p, 0
    {
      FirstChild(p);
      var c := list[p];
      ghost var done := if c == NULL then end[p] else c;
      while c != NULL
        invariant Valid() && end[p] == old(end[p])
        invariant p < done <= end[p] && (c == NULL ==> done == end[p])
        invariant c != NULL ==> c == done < end[p] && c < |info| && up[c] == p
        invariant SameOutside(p + 1, done) && Visited(p + 1, done) && KeepsFinal()
        invariant forall i :: p < i < done && i < |info| ==>
                    propagated[i] && parent[i] == up[i] && (up[i] != p && list[i] != NULL ==> HasPrompt(i))
        decreases |info| - done
      {
        FinalizeStep(p, c);
        done := end[c];
        c := next[c];
      }
    }

    // One child of p.
    method FinalizeStep(p: int, c: int)
      requires Valid() && 0 <= p < c < |info| && c < end[p] && up[c] == p
      requires forall i :: c <= i < end[p] && i < |info| ==> (propagated[i] <==> up[i] == p) && parent[i] == up[i]
      modifies this
      ensures Valid() && end[p] == old(end[p]) && c < end[c] <= end[p]
      ensures GoesOn(end, up, c, end[c], next[c])
      ensures SameOutside(c, end[c]) && Visited(c, end[c]) && KeepsFinal()
      ensures up[c] == p && forall i :: c <= i < end[c] && i < |info| ==>
                propagated[i] && parent[i] == up[i] && (up[i] != p && list[i] != NULL ==> HasPrompt(i))
      decreases |info| - c, 5
    {
      Finalize(c);
      NextStep(end, up, next, list, c);
    }

    // menu_finalize
    method Finalize(p: int)
      requires Valid() && 0 <= p < |info| && Ready(p)
      modifies this
      ensures Valid()
      ensures old(end[p]) <= end[p] <= old(Limit(end, up, p))
      ensures up[p] == old(up[p]) && parent[p] == old(parent[p]) && propagated[p]
      ensures Settled(p) && SameOutside(p, end[p]) && Visited(p, end[p]) && KeepsFinal()
      ensures old(list[p]) == NULL ==> SubmenuComplete(p)
      decreases |info| - p, 4
    {
      FinalizeBelow(p);
      assert At(p);
      FlattenChildren(p);
      visits := visits[p := visits[p] + 1];
    }

    // What comes before the last loop: a node with children propagates to them
    // and finalises them, a symbol without children looks for a submenu.
    method FinalizeBelow(p: int)
      requires Valid() && 0 <= p < |info| && Ready(p)
      modifies this
      ensures Valid()
      ensures old(end[p]) <= end[p] <= old(Limit(end, up, p))
      ensures up[p] == old(up[p]) && parent[p] == old(parent[p]) && propagated[p] && visits[p] == old(visits[p])
      ensures SettledBelow(p) && SameOutside(p, end[p]) && Visited(p + 1, end[p]) && KeepsFinal()
      ensures old(list[p]) == NULL ==> SubmenuComplete(p)
      decreases |info| - p, 3
    {
      ListStep(end, up, next, list, p);
      if list[p] != NULL {
        InsideParent(end, up, next, list, p);
        NotDeeper(p);
        PropagateChildren(p);
        FinalizeChildren(p);
      } else if info[p].sym.Some? {
        MakeSubmenu(p);
      }
    }

    // Nothing below the children of p is propagated yet.
    lemma NotDeeper(p: int)
      requires Valid() && 0 <= p < |info| && Ready(p)
      ensures forall i :: p < i < end[p] && i < |info| ==> !propagated[i] && parent[i] == up[i]
    {
      ListStep(end, up, next, list, p);
    }

    // Automatic submenu creation for the leaf p.
    method MakeSubmenu(p: int)
      requires Valid() && 0 <= p < |info| && Ready(p) && list[p] == NULL && info[p].sym.Some?
      modifies this
      ensures Valid()
      ensures old(end[p]) <= end[p] <= old(Limit(end, up, p))
      ensures up[p] == old(up[p]) && parent[p] == old(parent[p]) && propagated[p] && visits[p] == old(visits[p])
      ensures SettledBelow(p) && SameOutside(p, end[p]) && Visited(p + 1, end[p]) && KeepsFinal()
      ensures forall i :: p < i < end[p] && i < |info| && up[i] == p ==> Justified(p, i)
      ensures SubmenuComplete(p)
      decreases |info| - p, 2
    {
      ListStep(end, up, next, list, p);
      if p > 0 {
        TakeSiblings(p);
      }
    }

    method TakeSiblings(p: int)
      requires Valid() && 0 < p < |info| && Ready(p) && end[p] == p + 1 && info[p].sym.Some?
      modifies this
      ensures Valid()
      ensures p < end[p] <= old(Limit(end, up, p))
      ensures up[p] == old(up[p]) && parent[p] == old(parent[p]) && propagated[p] && visits[p] == old(visits[p])
      ensures SettledBelow(p) && SameOutside(p, end[p]) && Visited(p + 1, end[p]) && KeepsFinal()
      ensures forall i :: p < i < end[p] && i < |info| && up[i] == p ==> Justified(p, i)
      ensures SubmenuComplete(p)
      decreases |info| - p, 1, 1
    {
      assert At(p);
      var last := PullSiblings(p);
      if last != NULL {
        CloseSubmenu(p, last);
      }
    }

    // The run of siblings ends with the list, or before an item left out.
    ghost predicate RunStops(p: int, e: int)
      reads this
      requires Sizes() && 0 <= p < |info| && info[p].sym.Some? && 0 <= e
    {
      e < Limit(end, up, p) && e < |info| ==> LeftOut(p, e)
    }

    // Is the item m to be taken into the submenu of p?
    method Takes(p: int, m: int) returns (yes: bool)
      requires Sizes() && 0 <= p < |info| && info[p].sym.Some? && 0 <= m < |info|
      ensures if yes then Justified(p, m) else LeftOut(p, m)
    {
      yes := BelongsTo(OwnCondition(m), info[p].sym.value, BaseCondition(p));
    }

    lemma NextAfter(p: int)
      requires Valid() && 0 < p < |info| && end[p] == p + 1
      ensures GoesOn(end, up, p, p + 1, next[p]) && p < Limit(end, up, p) <= |info|
    {
      NextStep(end, up, next, list, p);
    }

    // The loop over the siblings after p: as long as they depend on its
    // symbol they are finalised and named children of p.
    method PullSiblings(p: int) returns (last: int)
      requires Valid() && 0 < p < |info| && Ready(p) && end[p] == p + 1 && info[p].sym.Some?
      modifies this
      ensures Valid() && end[p] == p + 1 && up[p] == old(up[p]) && Limit(end, up, p) == old(Limit(end, up, p))
      ensures last != NULL ==> p < last < |info| && up[last] == up[p] && last < end[last] <= Limit(end, up, p)
      ensures var e := if last == NULL then p + 1 else end[last];
              SameOutside(p + 1, e) && Visited(p + 1, e) && PulledBelow(p, e) && RunStops(p, e)
      ensures KeepsFinal()
      decreases |info| - p, 1, 0
    {
      NextAfter(p);
      last := NULL;
      var m := next[p];
      ghost var e, limit := p + 1, Limit(end, up, p);
      while m != NULL
        invariant Valid() && PulledBelow(p, e)
        invariant p < e <= limit == Limit(end, up, p)
        invariant GoesOn(end, up, p, e, m) && TakenTo(end, up, p, last, e)
        invariant SameOutside(p + 1, e) && Visited(p + 1, e) && KeepsFinal()
        decreases |info| - e
      {
        var yes := Takes(p, m);
        if !yes {
          break;
        }
        last := m;
        PullSibling(p, m);
        e, m := end[m], next[m];
      }
    }

    method PullSibling(p: int, m: int)
      requires Valid() && 0 < p < m < |info| && m < Limit(end, up, p) && up[m] == up[p] && PulledBelow(p, m)
      requires forall i :: m <= i < Limit(end, up, p) && i < |info| ==>
                 (propagated[i] <==> up[i] == up[p]) && parent[i] == up[i]
      requires propagated[p] && Justified(p, m)
      modifies this
      ensures Valid() && PulledBelow(p, end[m])
      ensures m < end[m] <= old(Limit(end, up, p)) == Limit(end, up, p)
      ensures SameOutside(m, end[m]) && Visited(m, end[m]) && KeepsFinal()
      ensures up[m] == up[p]
      ensures GoesOn(end, up, p, end[m], next[m])
      decreases |info| - m, 5
    {
      Finalize(m);
      NextStep(end, up, next, list, m);
      forall i | p < i < m && i < |info| ensures Pulled(p, i) {
        assert old(Pulled(p, i));
      }
      Adopt(p, m);
    }

    // menu->parent = parent
    method Adopt(p: int, m: int)
      requires Valid() && 0 < p < m < |info| && up[m] == up[p] && propagated[m] && Justified(p, m)
      requires Settled(m) && PulledBelow(p, m)
      modifies `parent
      ensures Valid() && PulledBelow(p, end[m]) && parent == old(parent)[m := p]
    {
      NestedFacts(end, up);
      parent := parent[m := p];
      forall i | p < i < end[m] && i < |info| ensures Pulled(p, i) {
        if i < m {
          assert old(Pulled(p, i));
        } else if i > m {
          assert up[i] >= m;
        }
      }
    }

    // parent->list = parent->next, and so on.
    method CloseSubmenu(p: int, last: int)
      requires Valid() && 0 < p < last < |info| && end[p] == p + 1 && up[last] == up[p]
      requires propagated[p] && PulledBelow(p, end[last])
      modifies `next, `list, `end, `up
      ensures Valid() && SettledBelow(p)
      ensures forall i :: p < i < end[p] && i < |info| && up[i] == p ==> Justified(p, i)
      ensures list == old(list)[p := old(next[p])]
      ensures end == old(end)[p := old(end[last])] && up == SubmenuUp(old(up), p, old(end[last]))
    {
      ghost var e := end[last];
      forall i | p < i < e && i < |info|
        ensures propagated[i] && (if up[i] == up[p] then parent[i] == p && Justified(p, i)
          else up[i] > p && parent[i] == up[i] && (list[i] != NULL ==> HasPrompt(i)))
      {
        assert Pulled(p, i);
      }
      SubmenuLinked(end, up, next, list, p, last);
      MovingKeepsConditions(AsWritten(), up, SubmenuUp(up, p, e), dep, props, propagated, revDep, implied);
      list := list[p := next[p]];
      next := next[p := next[last]];
      next := next[last := NULL];
      end, up := end[p := e], SubmenuUp(up, p, e);
    }

    // The nodes already taken from the list of p.
    ghost predicate PulledBelow(p: int, e: int)
      reads this
      requires Sizes() && 0 <= p < |info|
    {
      forall i :: p < i < e && i < |info| ==> Pulled(p, i)
    }

    ghost predicate Pulled(p: int, i: int)
      reads this
      requires Sizes() && 0 <= p < |info| && 0 <= i < |info|
    {
      && propagated[i]
      && (if up[i] == up[p] then parent[i] == p && Justified(p, i)
          else up[i] > p && parent[i] == up[i] && (list[i] != NULL ==> HasPrompt(i)))
    }

    // ---- The finished tree ----

    // Every node's parent pointer names the node whose list it is in.
    ghost predicate ParentsRight()
      reads this
      requires Sizes()
    {
      forall i :: 0 <= i < |info| ==> parent[i] == up[i]
    }

    // menu_finalize(&rootmenu) on the tree as it was read.
    method FinalizeRoot()
      requires Valid() && ParentsRight()
      requires forall i :: 0 < i < |info| ==> !propagated[i]
      requires forall i :: 0 <= i < |info| ==> visits[i] == 0
      modifies this
      ensures Valid() && ParentsRight()
      ensures forall i :: 0 <= i < |info| ==> visits[i] == 1
      ensures forall i :: 0 < i < |info| ==> propagated[i] && (list[i] != NULL ==> HasPrompt(i))
    {
      ListStep(end, up, next, list, 0);
      RootIsAlone();
      Finalize(0);
      ListStep(end, up, next, list, 0);
      RootInterval();
    }

    lemma RootInterval()
      requires Valid()
      ensures end[0] == |info| == Limit(end, up, 0)
    {
    }

    lemma RootIsAlone()
      requires Valid()
      ensures forall i :: 0 < i < |info| ==> up[i] != up[0]
    {
      NestedFacts(end, up);
    }

    // In the finished tree what selects a symbol is exactly the greatest
    // min(selector, condition) of all selects of it, n without any; likewise
    // for implies.
    lemma ReverseExact(target: Sym, kind: PropKind, env: Env)
      requires Valid() && (kind == SelectProp || kind == ImplyProp)
      requires forall i :: 0 < i < |info| ==> propagated[i]
      requires info[0].sym == None
      ensures var v := EvalReverse(Lookup(if kind == SelectProp then revDep else implied, target), env);
              && (forall i, k :: 0 <= i < |info| && 0 <= k < |props[i]| && info[i].sym.Some?
                                 && props[i][k].kind == kind && props[i][k].target == target ==>
                    v >= Min(env.tri(info[i].sym.value), EvalCond(props[i][k].visible, env)))
              && (v == NO || exists i :: 0 <= i < |info| && Attained(info[i].sym, props[i], kind, target, env, v))
    {
      var reverse := if kind == SelectProp then revDep else implied;
      var v := EvalReverse(Lookup(reverse, target), env);
      assert OnlyRecorded(AsWritten(), props, propagated, reverse, kind);
      forall i, k | 0 <= i < |info| && 0 <= k < |props[i]| && info[i].sym.Some?
                    && props[i][k].kind == kind && props[i][k].target == target
        ensures v >= Min(env.tri(info[i].sym.value), EvalCond(props[i][k].visible, env))
      {
        var q := up0[i];
        assert AsWritten().NodeFinal(i, PassedOn(info[q], dep[q], props[q]), dep[i], props[i], revDep, implied);
        assert Recorded(info[i].sym, props[i][k], revDep, implied);
        assert Eval(reverse[target], env) >= Min(env.tri(info[i].sym.value), EvalCond(props[i][k].visible, env));
      }
    }

    // What an item is compared with is n exactly if its prompt cannot be seen,
    // or without a prompt its dependency is not met, by all that is written
    // along its ancestors; what it is compared against is that of the prompt
    // alone, and nothing without one.
    lemma ComparedConditions(i: int, env: Env)
      requires Valid() && 0 < i < |info| && propagated[i]
      requires WellTyped(env) && AllComparable(AsWritten(), env)
      ensures var t, root := AsWritten(), PassedOn(info[0], dep[0], props[0]);
              var chain := ChainDep(t, root, i, env);
              var own := if HasPrompt(i) then EvalCond(props0[i][info[i].promptAt].visible, WithModules(env, modules)) else YES;
              && (EvalCond(OwnCondition(i), env) == NO <==> Min(chain, own) == NO)
              && (HasPrompt(i) ==> BaseCondition(i) == OwnCondition(i))
              && (!HasPrompt(i) ==> BaseCondition(i) == None)
    {
      ChainExact(AsWritten(), dep, props, propagated, revDep, implied, i, env);
      if HasPrompt(i) {
        var q, k := up0[i], info[i].promptAt;
        assert AsWritten().NodeFinal(i, PassedOn(info[q], dep[q], props[q]), dep[i], props[i], revDep, implied);
        assert PropertyInherited(info[i].sym, modules, dep[i], props0[i][k], props[i][k]);
        assert ComparableCond(props0[i][k].visible, env);
      }
    }

    // One step of the stackless walk of conf_write: into the list, else to the
    // next node, else up until there is a next node.
    method WalkStep(m0: int) returns (m: int)
      requires Valid() && ParentsRight() && 0 <= m0 < |info|
      ensures m == if m0 + 1 < |info| then m0 + 1 else NULL
    {
      m := m0;
      ListStep(end, up, next, list, m);
      if list[m] != NULL {
        return list[m];
      }
      if m > 0 {
        NextStep(end, up, next, list, m);
      }
      if next[m] != NULL {
        return next[m];
      }
      RootInterval();
      m := parent[m];
      while m != NULL
        invariant m != NULL ==> 0 <= m <= m0 && end[m] == m0 + 1
        invariant m == NULL ==> m0 + 1 == |info|
        decreases m
      {
        ListStep(end, up, next, list, m);
        if m > 0 {
          NextStep(end, up, next, list, m);
        }
        if next[m] != NULL {
          return next[m];
        }
        m := parent[m];
      }
    }

    // The walk visits all nodes but the root, in file order; so the order in
    // which symbols are written is not changed by the surgery.
    method Walk() returns (visited: seq<int>)
      requires Valid() && ParentsRight()
      ensures visited == seq(|info| - 1, k => k + 1)
    {
      visited := [];
      ListStep(end, up, next, list, 0);
      RootInterval();
      var m := list[0];
      while m != NULL
        invariant m == if |visited| + 1 < |info| then |visited| + 1 else NULL
        invariant |visited| < |info|
        invariant visited == seq(|visited|, k => k + 1)
        decreases |info| - |visited|
      {
        visited := visited + [m];
        m := WalkStep(m);
      }
    }
  }
}
