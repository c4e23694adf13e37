// conf_write_defconfig as a whole: the walk over the finalised menus gives the
// order in which the symbols are written.
module ConfWrite {
  import opened Exprs
  import opened MenuConditions
  import opened MenuTree
  import opened Symbols
  import opened SymbolTable
  import opened Defconfig
  import opened ConfText
  import opened DefconfigText

  predicate AreNodes(info: seq<NodeInfo>, nodes: seq<int>) {
    forall i :: 0 <= i < |nodes| ==> 0 <= nodes[i] < |info|
  }

  // The symbols of the given nodes.
  function SymbolsOf(info: seq<NodeInfo>, nodes: seq<int>): seq<Sym>
    requires AreNodes(info, nodes)
  {
    if nodes == [] then []
    else (if info[nodes[0]].sym.Some? then [info[nodes[0]].sym.value] else []) + SymbolsOf(info, nodes[1..])
  }

  lemma {:induction false} SymbolsOfExact(info: seq<NodeInfo>, nodes: seq<int>, s: Sym)
    requires AreNodes(info, nodes)
    ensures s in SymbolsOf(info, nodes) <==> exists i :: 0 <= i < |nodes| && info[nodes[i]].sym == Some(s)
  {
    if nodes != [] {
      var rest := nodes[1..];
      SymbolsOfExact(info, rest, s);
      assert forall i :: 0 <= i < |rest| ==> rest[i] == nodes[i + 1];
      assert forall i :: 0 < i < |nodes| ==> nodes[i] == rest[i - 1];
    }
  }

  // All nodes but the root, in file order.
  function FileOrder(info: seq<NodeInfo>): seq<int>
    requires info != []
  {
    seq(|info| - 1, k => k + 1)
  }

  lemma FileOrderExact(info: seq<NodeInfo>, s: Sym)
    requires info != []
    ensures AreNodes(info, FileOrder(info))
    ensures s in SymbolsOf(info, FileOrder(info)) <==> InMenu(info, s)
  {
    var nodes := FileOrder(info);
    SymbolsOfExact(info, nodes, s);
    if InMenu(info, s) {
      var n :| 0 < n < |info| && info[n].sym == Some(s);
      assert nodes[n - 1] == n;
    }
  }

  // A symbol is in the menu.
  predicate InMenu(info: seq<NodeInfo>, s: Sym) {
    exists n :: 0 < n < |info| && info[n].sym == Some(s)
  }

  // What is written are the symbols of the menus in file order, whatever the
  // surgery on the menus was; and the text reads back as the minimal settings
  // exactly if the values in it are writable.
  method WriteMenus(menus: Menus, table: Table, names: Names) returns (text: string, ghost minimal: Users)
    requires menus.Valid() && menus.ParentsRight()
    requires table.Inv({}) && Acyclic(table.k, table.rank)
    requires forall s :: s in table.k.decls && table.k.decls[s].prompts != [] ==> InMenu(menus.info, s)
    requires forall s :: InMenu(menus.info, s) ==> Named(names, s)
    modifies table`valid, table`curr, table`attr
    ensures table.Inv({})
    ensures Exactly(table.k, table.rank, table.users, minimal) && TextOf(table.k, names, minimal, text)
    ensures IsMinimal(table.k, table.rank, table.users, ReadText(names, map[], text)) <==> AllWritable(table.k, minimal)
  {
    var visited := menus.Walk();
    assert visited == FileOrder(menus.info);
    forall s: Sym ensures AreNodes(menus.info, visited) && (s in SymbolsOf(menus.info, visited) <==> InMenu(menus.info, s)) {
      FileOrderExact(menus.info, s);
    }
    text, minimal := table.WriteDefconfig(names, SymbolsOf(menus.info, visited));
  }
}
