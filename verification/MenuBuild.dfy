// Building the menu tree while it is read: entries are appended where the last
// entry pointer stands, menus are opened and closed.
module MenuBuild {
  import opened Exprs
  import opened MenuDependencies
  import opened MenuShape
  import opened MenuConditions
  import opened MenuTree

  // ---- Reading ----

  class Builder {
    var info: seq<NodeInfo>
    var dep: seq<Option<Expr>>
    var props: seq<seq<Property>>
    var next: seq<int>
    var list: seq<int>
    var parent: seq<int>
    // current_menu, and the node whose list or next is to be set
    var current: int
    var slot: int
    ghost var end: seq<int>

    ghost predicate Valid()
      reads this
    {
      && |info| == |dep| == |props| == |end| == |parent|
      && LinkedTo(end, parent, next, list)
      && OpenToEnd(end, current) && AtSlot(end, parent, current, slot)
      && (forall i :: 0 <= i < |info| ==> NULL <= info[i].promptAt < |props[i]|)
    }

    // _menu_init
    constructor (root: NodeInfo, rootDep: Option<Expr>, rootProps: seq<Property>)
      requires NULL <= root.promptAt < |rootProps|
      ensures Valid() && info == [root] && dep == [rootDep] && props == [rootProps]
    {
      info, dep, props := [root], [rootDep], [rootProps];
      next, list, parent := [NULL], [NULL], [NULL];
      current, slot := 0, 0;
      end := [1];
      SingleNode();
    }

    // menu_add_entry, with what is then said about the entry
    method AddEntry(node: NodeInfo, d: Option<Expr>, ps: seq<Property>)
      requires Valid() && NULL <= node.promptAt < |ps|
      modifies this
      ensures Valid() && current == old(current) && slot == |old(info)|
      ensures info == old(info) + [node] && dep == old(dep) + [d] && props == old(props) + [ps]
      ensures parent == old(parent) + [current]
    {
      GrownLinked(end, parent, next, list, current, slot);
      var n := |info|;
      next, list := NextSet(next, current, slot, n), ListSet(list, current, slot, n);
      info, dep, props := info + [node], dep + [d], props + [ps];
      parent := parent + [current];
      end := Grown(end, current);
      slot := n;
    }

    // menu_add_menu: the entry just added becomes the current menu.
    method AddMenu()
      requires Valid() && slot == |info| - 1
      modifies `current
      ensures Valid() && current == slot
    {
      NestedFacts(end, parent);
      current := slot;
    }

    // menu_end_menu
    method EndMenu()
      requires Valid() && current != 0
      modifies `current, `slot
      ensures Valid() && current == parent[old(current)] && slot == old(current)
    {
      NestedFacts(end, parent);
      ClosedMenu(end, parent, current);
      slot := current;
      current := parent[current];
    }

    // What has been read is ready for menu_finalize.
    method Finish(modules: Sym) returns (m: Menus)
      requires Valid() && NnfCond(PassedOn(info[0], dep[0], props[0]))
      ensures fresh(m) && m.Valid() && m.ParentsRight() && m.info == info
      ensures m.dep == m.dep0 == dep && m.props == m.props0 == props && m.up0 == m.parent == parent
      ensures forall i :: 0 < i < |m.info| ==> !m.propagated[i]
      ensures forall i :: 0 <= i < |m.info| ==> m.visits[i] == 0
    {
      NestedFacts(end, parent);
      m := new Menus(info, modules, dep, props, next, list, parent, end);
    }
  }
}
