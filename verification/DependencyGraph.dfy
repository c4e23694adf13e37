// The dependencies between symbols that the checker follows.
module DependencyGraph {
  import opened Tristate
  import opened Exprs
  import opened Transformation
  import opened MenuDependencies
  import opened Symbols

  // ---- The dependencies that are followed ----

  function CondList(e: Option<Expr>): seq<Expr> {
    if e.None? then [] else [e.value]
  }

  function PromptList(ps: seq<Option<Expr>>): seq<Expr> {
    if ps == [] then [] else CondList(ps[0]) + PromptList(ps[1..])
  }

  function DefaultList(ds: seq<Default>): seq<Expr> {
    if ds == [] then [] else CondList(ds[0].cond) + [ds[0].value] + DefaultList(ds[1..])
  }

  function RangeList(rs: seq<Range>): seq<Expr> {
    if rs == [] then [] else CondList(rs[0].cond) + RangeList(rs[1..])
  }

  // The condition of the property by which a symbol refers to one of its
  // entries: the entry's dependency, simplified as for any property.
  function EntryCondition(s: Sym, dep: Option<Expr>): Option<Expr> {
    if s.Type().Tristate? || dep.None? then dep else Some(TransBool(dep.value))
  }

  function EntryList(s: Sym, deps: seq<Option<Expr>>): seq<Expr> {
    if deps == [] then [] else CondList(EntryCondition(s, deps[0])) + EntryList(s, deps[1..])
  }

  // The expressions sym_check_sym_deps goes through: the reverse dependency,
  // then the conditions of the properties, also of entries and implies, and
  // the values of defaults. Selects, range bounds and what implies the symbol
  // are not followed.
  function Followed(k: Kconfig, s: Sym): seq<Expr> {
    var d := DeclOf(k, s);
    CondList(d.revDep) + EntryList(s, d.entries) + PromptList(d.prompts) + DefaultList(d.defaults)
    + RangeList(d.ranges) + PromptList(d.implies)
  }

  ghost predicate Edge(k: Kconfig, a: Sym, b: Sym) {
    exists i :: 0 <= i < |Followed(k, a)| && Contains(Followed(k, a)[i], b)
  }

  ghost predicate Path(k: Kconfig, p: seq<Sym>) {
    forall i :: 0 <= i < |p| - 1 ==> Edge(k, p[i], p[i + 1])
  }

  // A closed path.
  ghost predicate Cycle(k: Kconfig, p: seq<Sym>) {
    |p| > 0 && Path(k, p) && Edge(k, p[|p| - 1], p[0])
  }

  // Every symbol comes after all the symbols it depends on.
  ghost predicate Topological(k: Kconfig, order: seq<Sym>) {
    forall i, t :: 0 <= i < |order| && Edge(k, order[i], t) ==> t in order[..i]
  }

  lemma TopologicalExtends(k: Kconfig, order: seq<Sym>, s: Sym)
    requires Topological(k, order)
    requires forall t :: Edge(k, s, t) ==> t in order
    ensures Topological(k, order + [s])
  {
    var o := order + [s];
    forall i, t | 0 <= i < |o| && Edge(k, o[i], t) ensures t in o[..i] {
      if i < |order| {
        assert o[..i] == order[..i];
      } else {
        assert o[..i] == order;
      }
    }
  }

  // Following a path from the i-th symbol of the order only leads to earlier ones.
  lemma Successor(k: Kconfig, order: seq<Sym>, i: nat, t: Sym) returns (j: nat)
    requires Topological(k, order) && i < |order| && Edge(k, order[i], t)
    ensures j < i && order[j] == t
  {
    assert t in order[..i];
    j :| j < i && order[..i][j] == t;
  }

  // A cycle cannot enter symbols that are in topological order.
  lemma {:induction false} NoCycleInOrder(k: Kconfig, order: seq<Sym>, p: seq<Sym>, i: nat, at: nat)
    requires Topological(k, order) && Cycle(k, p)
    requires i < |order| && at < |p| && p[at] == order[i]
    ensures false
    decreases i
  {
    var next := if at + 1 < |p| then at + 1 else 0;
    assert Edge(k, p[at], p[next]);
    var j := Successor(k, order, i, p[next]);
    NoCycleInOrder(k, order, p, j, next);
  }

  // ---- What acceptance means for the evaluator ----

  // The position of a symbol in the order it was left.
  function Position(order: seq<Sym>, s: Sym): (r: nat)
    ensures r <= |order|
    ensures s in order ==> r < |order| && order[r] == s
    ensures forall i :: 0 <= i < r ==> order[i] != s
  {
    if order == [] || order[0] == s then 0 else 1 + Position(order[1..], s)
  }

  lemma EdgeGoesBack(k: Kconfig, order: seq<Sym>, s: Sym, t: Sym)
    requires Topological(k, order) && s in order && Edge(k, s, t)
    ensures Position(order, t) < Position(order, s)
  {
    var j := Successor(k, order, Position(order, s), t);
  }

  // The references of a symbol that the checker does not follow.
  ghost predicate Unfollowed(d: Decl, t: Sym) {
    || (exists i :: 0 <= i < |d.ranges| && (t == d.ranges[i].lo || t == d.ranges[i].hi))
    || MentionsCond(d.implied, t)
  }

  // The constants, which refer to nothing, before the symbols in their order.
  function RankIn(order: seq<Sym>): Rank {
    (s: Sym) => if s.Config? then Position(order, s) + 1 else 0
  }

  // If the checker accepts, and what implies a symbol and its range bounds
  // respect the same order, then evaluation is well-founded.
  lemma AcceptedIsAcyclic(k: Kconfig, order: seq<Sym>)
    requires Topological(k, order)
    requires forall s :: s in k.decls ==> s in order && s.Config?
    requires forall s, t :: s in k.decls && Unfollowed(k.decls[s], t) ==> RankIn(order)(t) < RankIn(order)(s)
    ensures Acyclic(k, RankIn(order))
  {
    forall s: Sym, t: Sym | s in k.decls && Mentions(k.decls[s], t)
      ensures RankIn(order)(t) < RankIn(order)(s)
    {
      if t.Config? && !Unfollowed(k.decls[s], t) {
        MentionedIsFollowed(k, s, t);
        EdgeGoesBack(k, order, s, t);
      }
    }
  }

  lemma MentionedIsFollowed(k: Kconfig, s: Sym, t: Sym)
    requires s in k.decls && Mentions(k.decls[s], t) && !Unfollowed(k.decls[s], t) && t.Config?
    ensures Edge(k, s, t)
  {
    var d := k.decls[s];
    FollowedParts(k, s, t);
    CondListContains(d.revDep, t);
    InPromptList(d.prompts, t);
    InDefaultList(d.defaults, t);
    InRangeList(d.ranges, t);
    if MentionsCond(DirDep(d.entries), t) {
      DirDepIsFollowed(s, d.entries, t);
    }
    assert SomeContains(Followed(k, s), t);
  }

  // What is followed, and nothing else.
  lemma FollowedExact(k: Kconfig, s: Sym, t: Sym)
    ensures var d := DeclOf(k, s);
            Edge(k, s, t) <==>
            || MentionsCond(d.revDep, t)
            || (exists i :: 0 <= i < |d.entries| && MentionsCond(EntryCondition(s, d.entries[i]), t))
            || (exists i :: 0 <= i < |d.prompts| && MentionsCond(d.prompts[i], t))
            || (exists i :: 0 <= i < |d.defaults| && (MentionsCond(d.defaults[i].cond, t) || Contains(d.defaults[i].value, t)))
            || (exists i :: 0 <= i < |d.ranges| && MentionsCond(d.ranges[i].cond, t))
            || (exists i :: 0 <= i < |d.implies| && MentionsCond(d.implies[i], t))
  {
    var d := DeclOf(k, s);
    FollowedParts(k, s, t);
    CondListContains(d.revDep, t);
    InEntryList(s, d.entries, t);
    InPromptList(d.prompts, t);
    InDefaultList(d.defaults, t);
    InRangeList(d.ranges, t);
    InPromptList(d.implies, t);
    assert Edge(k, s, t) <==> SomeContains(Followed(k, s), t);
  }

  lemma {:induction false} InEntryList(s: Sym, es: seq<Option<Expr>>, t: Sym)
    ensures SomeContains(EntryList(s, es), t) <==> exists i :: 0 <= i < |es| && MentionsCond(EntryCondition(s, es[i]), t)
  {
    if es != [] {
      var rest := es[1..];
      InEntryList(s, rest, t);
      CondListContains(EntryCondition(s, es[0]), t);
      SomeContainsConcat(CondList(EntryCondition(s, es[0])), EntryList(s, rest), t);
      assert forall i :: 0 <= i < |rest| ==> rest[i] == es[i + 1];
      assert forall i :: 0 < i < |es| ==> es[i] == rest[i - 1];
    }
  }

  // The condition by which a symbol refers to an entry is n exactly if the
  // entry's dependency is.
  lemma EntryConditionExact(s: Sym, dep: Option<Expr>, env: Env)
    requires WellTyped(env) && NnfCond(dep)
    ensures EvalCond(EntryCondition(s, dep), env) == NO <==> EvalCond(dep, env) == NO
  {
    if dep.Some? {
      TransBoolEval(dep.value, env);
    }
  }

  lemma FollowedParts(k: Kconfig, s: Sym, t: Sym)
    ensures var d := DeclOf(k, s);
            SomeContains(Followed(k, s), t) <==>
            || SomeContains(CondList(d.revDep), t) || SomeContains(EntryList(s, d.entries), t)
            || SomeContains(PromptList(d.prompts), t) || SomeContains(DefaultList(d.defaults), t)
            || SomeContains(RangeList(d.ranges), t) || SomeContains(PromptList(d.implies), t)
  {
    var d := DeclOf(k, s);
    var rev, es, ps, ds, rs, ims :=
      CondList(d.revDep), EntryList(s, d.entries), PromptList(d.prompts), DefaultList(d.defaults), RangeList(d.ranges),
      PromptList(d.implies);
    SomeContainsConcat(rev, es, t);
    SomeContainsConcat(rev + es, ps, t);
    SomeContainsConcat(rev + es + ps, ds, t);
    SomeContainsConcat(rev + es + ps + ds, rs, t);
    SomeContainsConcat(rev + es + ps + ds + rs, ims, t);
  }

  // Direct dependencies are followed by way of the entries.
  lemma {:induction false} DirDepIsFollowed(s: Sym, deps: seq<Option<Expr>>, t: Sym)
    requires MentionsCond(DirDep(deps), t) && t.Config?
    ensures SomeContains(EntryList(s, deps), t)
  {
    var init, last := deps[..|deps| - 1], deps[|deps| - 1];
    EntryListSnoc(s, init, last);
    assert deps == init + [last];
    SomeContainsConcat(EntryList(s, init), CondList(EntryCondition(s, last)), t);
    CondListContains(EntryCondition(s, last), t);
    if MentionsCond(last, t) {
      TransBoolMentions(last.value, t);
    } else {
      DirDepIsFollowed(s, init, t);
    }
  }

  lemma {:induction false} EntryListSnoc(s: Sym, deps: seq<Option<Expr>>, dep: Option<Expr>)
    ensures EntryList(s, deps + [dep]) == EntryList(s, deps) + CondList(EntryCondition(s, dep))
  {
    if deps == [] {
      assert deps + [dep] == [dep];
    } else {
      assert (deps + [dep])[1..] == deps[1..] + [dep];
      EntryListSnoc(s, deps[1..], dep);
    }
  }

  // Only the constant n can get lost.
  lemma {:induction false} TransBoolMentions(e: Expr, t: Sym)
    requires Contains(e, t) && t.Config?
    ensures Contains(TransBool(e), t)
  {
    match e
    case Not(a) =>
      TransBoolMentions(a, t);
    case Bin(_, l, r) =>
      if Contains(l, t) {
        TransBoolMentions(l, t);
      } else {
        TransBoolMentions(r, t);
      }
    case _ =>
  }

  ghost predicate SomeContains(es: seq<Expr>, t: Sym) {
    exists i :: 0 <= i < |es| && Contains(es[i], t)
  }

  lemma SomeContainsConcat(xs: seq<Expr>, ys: seq<Expr>, t: Sym)
    ensures SomeContains(xs + ys, t) <==> SomeContains(xs, t) || SomeContains(ys, t)
  {
    if SomeContains(xs, t) {
      var i :| 0 <= i < |xs| && Contains(xs[i], t);
      assert Contains((xs + ys)[i], t);
    }
    if SomeContains(ys, t) {
      var i :| 0 <= i < |ys| && Contains(ys[i], t);
      assert Contains((xs + ys)[|xs| + i], t);
    }
  }

  lemma CondListContains(e: Option<Expr>, t: Sym)
    ensures SomeContains(CondList(e), t) <==> MentionsCond(e, t)
  {
    if e.Some? {
      assert CondList(e)[0] == e.value;
    }
  }

  lemma {:induction false} InPromptList(ps: seq<Option<Expr>>, t: Sym)
    ensures SomeContains(PromptList(ps), t) <==> exists i :: 0 <= i < |ps| && MentionsCond(ps[i], t)
  {
    if ps != [] {
      InPromptList(ps[1..], t);
      CondListContains(ps[0], t);
      SomeContainsConcat(CondList(ps[0]), PromptList(ps[1..]), t);
      assert forall i :: 0 <= i < |ps| - 1 ==> ps[1..][i] == ps[i + 1];
      assert forall i :: 0 < i < |ps| ==> ps[i] == ps[1..][i - 1];
    }
  }

  lemma {:induction false} InDefaultList(ds: seq<Default>, t: Sym)
    ensures SomeContains(DefaultList(ds), t) <==>
            exists i :: 0 <= i < |ds| && (MentionsCond(ds[i].cond, t) || Contains(ds[i].value, t))
  {
    if ds != [] {
      InDefaultList(ds[1..], t);
      CondListContains(ds[0].cond, t);
      CondListContains(Some(ds[0].value), t);
      SomeContainsConcat(CondList(ds[0].cond), [ds[0].value], t);
      SomeContainsConcat(CondList(ds[0].cond) + [ds[0].value], DefaultList(ds[1..]), t);
      assert forall i :: 0 <= i < |ds| - 1 ==> ds[1..][i] == ds[i + 1];
      assert forall i :: 0 < i < |ds| ==> ds[i] == ds[1..][i - 1];
    }
  }

  lemma {:induction false} InRangeList(rs: seq<Range>, t: Sym)
    ensures SomeContains(RangeList(rs), t) <==> exists i :: 0 <= i < |rs| && MentionsCond(rs[i].cond, t)
  {
    if rs != [] {
      InRangeList(rs[1..], t);
      CondListContains(rs[0].cond, t);
      SomeContainsConcat(CondList(rs[0].cond), RangeList(rs[1..]), t);
      assert forall i :: 0 <= i < |rs| - 1 ==> rs[1..][i] == rs[i + 1];
      assert forall i :: 0 < i < |rs| ==> rs[i] == rs[1..][i - 1];
    }
  }
}
