// The shape of the menu tree, as nested intervals of node numbers.
module MenuShape {
  const NULL := -1

  // Markers without content.  The quantifiers of the two predicates below are
  // instantiated only where a marker is mentioned, which keeps them out of
  // the proofs about the menu nodes.
  ghost predicate At(i: int) { true }

  ghost predicate Pair(i: int, j: int) { true }

  // Which nodes lie below which, as intervals: the nodes are numbered in file
  // order, and the subtree of i is the interval [i, end[i]).  up[i] is the
  // innermost interval around i.
  ghost predicate Nested(end: seq<int>, up: seq<int>) {
    && |end| == |up| > 0
    && up[0] == NULL && end[0] == |end|
    && (forall i {:trigger At(i)} :: 0 <= i < |end| ==> i < end[i] <= |end|)
    && (forall i {:trigger At(i)} :: 0 < i < |end| ==> 0 <= up[i] < i)
    && (forall i {:trigger At(i)} :: 0 < i < |end| && 0 <= up[i] < |end| ==> i < end[up[i]])
    && (forall i, j {:trigger Pair(i, j)} :: 0 <= i < j < |end| && j < end[i] ==> end[j] <= end[i])
    && (forall i, k {:trigger Pair(i, k)} :: 0 < i < |end| && up[i] < k < i && 0 <= k ==> end[k] <= i)
  }

  lemma NestedFacts(end: seq<int>, up: seq<int>)
    requires Nested(end, up)
    ensures forall i :: 0 <= i < |end| ==> i < end[i] <= |end|
    ensures forall i :: 0 < i < |end| ==> 0 <= up[i] < i && i < end[up[i]]
    ensures forall i, j :: 0 <= i < j < |end| && j < end[i] ==> end[j] <= end[i]
    ensures forall i, k :: 0 < i < |end| && up[i] < k < i ==> end[k] <= i
  {
    forall i | 0 <= i < |end| ensures i < end[i] <= |end| {
      assert At(i);
    }
    forall i | 0 < i < |end| ensures 0 <= up[i] < i && i < end[up[i]] {
      assert At(i);
    }
    forall i, j | 0 <= i < j < |end| && j < end[i] ensures end[j] <= end[i] {
      assert Pair(i, j);
    }
    forall i, k | 0 < i < |end| && up[i] < k < i ensures end[k] <= i {
      assert Pair(i, k);
    }
  }

  // End of the list i is in.
  ghost function Limit(end: seq<int>, up: seq<int>, i: int): int
    requires |end| == |up| && 0 <= i < |end|
  {
    if 0 <= up[i] < |end| then end[up[i]] else |end|
  }

  ghost function NextOf(end: seq<int>, up: seq<int>, i: int): int
    requires |end| == |up| && 0 <= i < |end|
  {
    if end[i] < Limit(end, up, i) then end[i] else NULL
  }

  ghost function ListOf(end: seq<int>, i: int): int
    requires 0 <= i < |end|
  {
    if end[i] > i + 1 then i + 1 else NULL
  }

  // list and next agree with the intervals.
  ghost predicate LinkedTo(end: seq<int>, up: seq<int>, next: seq<int>, list: seq<int>) {
    && Nested(end, up)
    && |next| == |list| == |end|
    && (forall i {:trigger At(i)} :: 0 <= i < |end| ==> list[i] == ListOf(end, i) && next[i] == NextOf(end, up, i))
  }

  // The list p is in goes on at e with node m, or ends there.
  ghost predicate GoesOn(end: seq<int>, up: seq<int>, p: int, e: int, m: int)
    requires |end| == |up| && 0 <= p < |end|
  {
    if m == NULL then e == Limit(end, up, p) else m == e < Limit(end, up, p) && 0 <= m < |end| && up[m] == up[p]
  }

  // The last node taken from that list so far, if any, ends at e.
  ghost predicate TakenTo(end: seq<int>, up: seq<int>, p: int, last: int, e: int)
    requires |end| == |up| && 0 <= p < |end|
  {
    if last == NULL then e == p + 1 else p < last < e && last < |end| && up[last] == up[p] && end[last] == e
  }

  // ---- Walking a list ----

  lemma {:induction false} ListStep(end: seq<int>, up: seq<int>, next: seq<int>, list: seq<int>, p: int)
    requires LinkedTo(end, up, next, list) && 0 <= p < |end|
    ensures p < end[p] <= Limit(end, up, p) <= |end|
    ensures list[p] == NULL <==> end[p] == p + 1
    ensures list[p] != NULL ==> list[p] == p + 1 < end[p] && up[p + 1] == p
    ensures p == 0 ==> up[p] == NULL && next[p] == NULL
    ensures p > 0 ==> 0 <= up[p] < p
    ensures forall i :: p < i < end[p] && i < |end| ==> up[i] >= p
  {
    NestedFacts(end, up);
    assert At(p);
  }

  // The node after m in its list is where the interval of m ends; the nodes
  // in between lie below m.
  lemma {:induction false} NextStep(end: seq<int>, up: seq<int>, next: seq<int>, list: seq<int>, m: int)
    requires LinkedTo(end, up, next, list) && 0 < m < |end|
    ensures 0 <= up[m] < m < end[m] <= end[up[m]] <= |end|
    ensures forall i :: m < i < end[m] && i < |end| ==> up[i] >= m
    ensures next[m] != NULL ==> next[m] == end[m] < end[up[m]] && up[end[m]] == up[m]
    ensures next[m] == NULL ==> end[m] == end[up[m]]
  {
    NestedFacts(end, up);
    assert At(m);
  }

  // Nodes that have p as parent lie in the interval of p.
  lemma {:induction false} InsideParent(end: seq<int>, up: seq<int>, next: seq<int>, list: seq<int>, p: int)
    requires LinkedTo(end, up, next, list) && 0 <= p < |end|
    ensures forall i :: 0 <= i < |end| && up[i] == p ==> p < i < end[p]
  {
    NestedFacts(end, up);
  }

  // ---- The two surgeries ----

  // The nodes of p's list from p + 1 up to e move below p.
  ghost function SubmenuUp(up: seq<int>, p: int, e: int): seq<int>
    requires 0 <= p < |up|
  {
    seq(|up|, i requires 0 <= i < |up| => if p < i < e && up[i] == up[p] then p else up[i])
  }

  lemma SubmenuNested(end: seq<int>, up: seq<int>, p: int, e: int)
    requires Nested(end, up) && 0 < p < |end|
    requires end[p] == p + 1 && p + 1 < e <= Limit(end, up, p)
    requires forall i :: p < i < e && i < |end| ==> end[i] <= e
    ensures Nested(end[p := e], SubmenuUp(up, p, e))
  {
    NestedFacts(end, up);
    var end', up' := end[p := e], SubmenuUp(up, p, e);
    forall i, k | 0 < i < |end| && up'[i] < k < i && 0 <= k ensures end'[k] <= i {
      SubmenuStaysInnermost(end, up, p, e, i, k);
    }
  }

  lemma SubmenuStaysInnermost(end: seq<int>, up: seq<int>, p: int, e: int, i: int, k: int)
    requires Nested(end, up) && 0 < p < |end|
    requires end[p] == p + 1 && p + 1 < e <= Limit(end, up, p)
    requires 0 < i < |end| && 0 <= k < i && SubmenuUp(up, p, e)[i] < k
    ensures end[p := e][k] <= i
  {
    NestedFacts(end, up);
    if k == p && i < e {
      assert false;
    }
  }

  // The pointer assignments that end the submenu loop.
  lemma SubmenuLinked(end: seq<int>, up: seq<int>, next: seq<int>, list: seq<int>, p: int, last: int)
    requires LinkedTo(end, up, next, list) && 0 < p < last < |end|
    requires end[p] == p + 1 && up[last] == up[p]
    ensures LinkedTo(end[p := end[last]], SubmenuUp(up, p, end[last]),
                     next[p := next[last]][last := NULL], list[p := next[p]])
  {
    var e := end[last];
    NestedFacts(end, up);
    assert At(p) && At(last);
    forall i | p < i < e ensures end[i] <= e {
    }
    SubmenuNested(end, up, p, e);
    var end', up' := end[p := e], SubmenuUp(up, p, e);
    var next', list' := next[p := next[last]][last := NULL], list[p := next[p]];
    forall i | 0 <= i < |end| ensures list'[i] == ListOf(end', i) && next'[i] == NextOf(end', up', i) {
      assert At(i);
    }
  }

  // The children of m move up into the list of m, after m.
  ghost function FlattenUp(up: seq<int>, m: int): seq<int>
    requires 0 <= m < |up|
  {
    seq(|up|, i requires 0 <= i < |up| => if up[i] == m then up[m] else up[i])
  }

  lemma FlattenNested(end: seq<int>, up: seq<int>, m: int)
    requires Nested(end, up) && 0 < m < |end|
    ensures Nested(end[m := m + 1], FlattenUp(up, m))
  {
    NestedFacts(end, up);
  }

  // The pointer assignments that end the flattening loop.
  lemma FlattenLinked(end: seq<int>, up: seq<int>, next: seq<int>, list: seq<int>, m: int, last: int)
    requires LinkedTo(end, up, next, list) && 0 < m < last < |end|
    requires up[last] == m && next[last] == NULL
    ensures LinkedTo(end[m := m + 1], FlattenUp(up, m),
                     next[last := next[m]][m := list[m]], list[m := NULL])
  {
    NestedFacts(end, up);
    assert At(m) && At(last);
    FlattenNested(end, up, m);
    var end', up' := end[m := m + 1], FlattenUp(up, m);
    var next', list' := next[last := next[m]][m := list[m]], list[m := NULL];
    forall i | 0 <= i < |end| ensures list'[i] == ListOf(end', i) && next'[i] == NextOf(end', up', i) {
      assert At(i);
    }
  }

  // ---- The shape with one more node ----

  // The node cur or one it is in.
  predicate IsOpen(end: seq<int>, cur: int, i: int) {
    0 <= i < |end| && i <= cur < end[i]
  }

  // All these reach to the end.
  ghost predicate OpenToEnd(end: seq<int>, cur: int) {
    0 <= cur < |end| && forall i :: IsOpen(end, cur, i) ==> end[i] == |end|
  }

  function Grown(end: seq<int>, cur: int): (r: seq<int>)
    ensures |r| == |end| + 1
  {
    seq(|end| + 1, i requires 0 <= i <= |end| => if i == |end| || IsOpen(end, cur, i) then |end| + 1 else end[i])
  }

  lemma Inside(end: seq<int>, up: seq<int>, i: int, j: int)
    requires Nested(end, up) && 0 <= i < j < |end|
    ensures j < end[i] ==> end[j] <= end[i]
  {
    assert Pair(i, j);
  }

  lemma Between(end: seq<int>, up: seq<int>, i: int, k: int)
    requires Nested(end, up) && 0 < i < |end| && 0 <= k < i
    ensures up[i] < k ==> end[k] <= i
  {
    assert Pair(i, k);
  }

  lemma GrownNested(end: seq<int>, up: seq<int>, cur: int)
    requires Nested(end, up) && OpenToEnd(end, cur)
    ensures Nested(Grown(end, cur), up + [cur])
  {
    var n, end', up' := |end|, Grown(end, cur), up + [cur];
    NestedFacts(end, up);
    forall i, j {:trigger Pair(i, j)} | 0 <= i < j < |end'| && j < end'[i] ensures end'[j] <= end'[i] {
      if j < n {
        Inside(end, up, i, j);
      }
    }
    forall i, k {:trigger Pair(i, k)} | 0 < i < |end'| && up'[i] < k < i && 0 <= k ensures end'[k] <= i {
      if i < n {
        assert end[k] <= i;
      }
    }
  }

  // The place of the last entry pointer: the list of the current menu if that
  // is empty, else the next of its last child.
  ghost predicate AtSlot(end: seq<int>, up: seq<int>, cur: int, slot: int) {
    && |end| == |up| && 0 <= cur <= slot < |end|
    && if slot == cur then end[cur] == cur + 1 else up[slot] == cur && end[slot] == |end|
  }

  lemma LastChildOnly(end: seq<int>, up: seq<int>, cur: int, slot: int, i: int)
    requires Nested(end, up) && OpenToEnd(end, cur) && AtSlot(end, up, cur, slot)
    requires 0 < i < |end| && !IsOpen(end, cur, i) && end[i] == |end| && IsOpen(end, cur, up[i])
    ensures i == slot != cur
  {
    NestedFacts(end, up);
    assert IsOpen(end, cur, cur) && cur < i;
    Between(end, up, i, cur);
    if slot < i {
      Between(end, up, i, slot);
    } else if i < slot {
      Between(end, up, slot, i);
    }
  }

  // What is assigned through the last entry pointer.
  function NextSet(next: seq<int>, cur: int, slot: int, n: int): (r: seq<int>)
    requires 0 <= slot < |next|
    ensures |r| == |next| + 1
  {
    (if slot == cur then next else next[slot := n]) + [NULL]
  }

  function ListSet(list: seq<int>, cur: int, slot: int, n: int): (r: seq<int>)
    requires 0 <= slot < |list|
    ensures |r| == |list| + 1
  {
    (if slot == cur then list[slot := n] else list) + [NULL]
  }

  lemma GrownLinked(end: seq<int>, up: seq<int>, next: seq<int>, list: seq<int>, cur: int, slot: int)
    requires LinkedTo(end, up, next, list) && OpenToEnd(end, cur) && AtSlot(end, up, cur, slot)
    ensures LinkedTo(Grown(end, cur), up + [cur], NextSet(next, cur, slot, |end|), ListSet(list, cur, slot, |end|))
    ensures OpenToEnd(Grown(end, cur), cur) && AtSlot(Grown(end, cur), up + [cur], cur, |end|)
  {
    var n, end', up' := |end|, Grown(end, cur), up + [cur];
    var next', list' := NextSet(next, cur, slot, n), ListSet(list, cur, slot, n);
    GrownNested(end, up, cur);
    NestedFacts(end, up);
    forall i | 0 <= i < |end'| ensures list'[i] == ListOf(end', i) && next'[i] == NextOf(end', up', i) {
      assert At(i);
      if i < n {
        GrownLinks(end, up, cur, slot, i);
        assert list[i] == ListOf(end, i) && next[i] == NextOf(end, up, i);
      }
    }
  }

  lemma GrownLinks(end: seq<int>, up: seq<int>, cur: int, slot: int, i: int)
    requires Nested(end, up) && OpenToEnd(end, cur) && AtSlot(end, up, cur, slot) && 0 <= i < |end|
    ensures ListOf(Grown(end, cur), i) == if i == cur == slot then |end| else ListOf(end, i)
    ensures NextOf(Grown(end, cur), up + [cur], i) == if i == slot != cur then |end| else NextOf(end, up, i)
  {
    NestedFacts(end, up);
    if i == 0 {
      assert IsOpen(end, cur, 0);
    } else {
      if IsOpen(end, cur, i) {
        assert IsOpen(end, cur, up[i]);
      } else if end[i] == |end| && IsOpen(end, cur, up[i]) {
        LastChildOnly(end, up, cur, slot, i);
      }
    }
  }

  lemma ClosedMenu(end: seq<int>, up: seq<int>, cur: int)
    requires Nested(end, up) && OpenToEnd(end, cur) && 0 < cur
    ensures OpenToEnd(end, up[cur]) && AtSlot(end, up, up[cur], cur)
  {
    NestedFacts(end, up);
    forall i | IsOpen(end, up[cur], i) ensures end[i] == |end| {
      assert i < up[cur] ==> end[up[cur]] <= end[i];
      assert IsOpen(end, cur, i);
    }
    assert IsOpen(end, cur, cur);
  }

  lemma SingleNode()
    ensures LinkedTo([1], [NULL], [NULL], [NULL])
  {
    var end, up := [1], [NULL];
    assert Nested(end, up);
    assert ListOf(end, 0) == NULL && NextOf(end, up, 0) == NULL;
  }
}
