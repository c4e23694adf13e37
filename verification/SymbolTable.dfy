// The lazy evaluator: values are computed on demand, kept with a VALID mark,
// and all marks are dropped when a setting changes.
module SymbolTable {
  import opened Tristate
  import opened Exprs
  import opened MenuDependencies
  import opened Numerals
  import opened Comparisons
  import opened Symbols
  import opened SymbolLaws
  import opened SymbolCache
  import opened Defconfig
  import opened Quoting
  import opened StringSettings
  import opened ConfText
  import opened DefconfigText

  class Table {
    const k: Kconfig
    ghost const rank: Rank
    var users: Users
    var valid: set<Sym>
    var curr: map<Sym, Value>
    var attr: map<Sym, Attributes>
    // The strings of settings that have been withdrawn.
    var left: map<Sym, string>

    // Every symbol marked valid has its right value, except those whose
    // computation is under way.
    ghost predicate Inv(stack: set<Sym>)
      reads this
    {
      AllRight(k, rank, users, curr, attr, valid - stack)
    }

    ghost function View(): View
      reads `users
      requires Acyclic(k, rank)
    {
      Full(k, rank, users)
    }

    constructor (k: Kconfig, ghost rank: Rank, users: Users)
      requires Acyclic(k, rank)
      ensures Inv({}) && this.k == k && this.rank == rank && this.users == users && valid == {} && left == map[]
    {
      this.k, this.rank, this.users := k, rank, users;
      valid, curr, attr, left := {}, map[], map[], map[];
    }

    // expr_calc_value
    method CalcExpr(e: Expr, ghost bound: nat, ghost stack: set<Sym>) returns (r: Tri)
      requires Inv(stack)
      requires forall t: Sym :: Contains(e, t) ==> rank(t) < bound
      requires forall t :: t in stack ==> bound <= rank(t)
      modifies `valid, `curr, `attr
      ensures Inv(stack) && Kept(old(curr), old(attr), old(valid), curr, attr, valid)
      ensures r == Eval(e, View().env)
      decreases bound, 0, e
    {
      match e
      case Var(s) =>
        var v := CalcValue(s, stack);
        r := v.tri;
      case Not(a) =>
        r := CalcExpr(a, bound, stack);
        r := Complement(r);
      case Bin(op, l, rt) =>
        var v1 := CalcExpr(l, bound, stack);
        var v2 := CalcExpr(rt, bound, stack);
        r := op.Apply(v1, v2);
      case Cmp(rel, a, b) =>
        var va := CalcValue(a, stack);
        var vb := CalcValue(b, stack);
        var c := Compare(a.Type(), StringOf(k, a, va), b.Type(), StringOf(k, b, vb));
        r := if !rel.IsEquality() && !c.ordered then NO else FromBool(rel.Holds(c.res));
    }

    method CalcCond(e: Option<Expr>, missing: Tri, ghost bound: nat, ghost stack: set<Sym>) returns (r: Tri)
      requires Inv(stack)
      requires forall t: Sym :: MentionsCond(e, t) ==> rank(t) < bound
      requires forall t :: t in stack ==> bound <= rank(t)
      modifies `valid, `curr, `attr
      ensures Inv(stack) && Kept(old(curr), old(attr), old(valid), curr, attr, valid)
      ensures r == if e.None? then missing else Eval(e.value, View().env)
      decreases bound, 1
    {
      r := missing;
      if e.Some? {
        r := CalcExpr(e.value, bound, stack);
      }
    }

    // Is any prompt visible?
    method CalcPrompts(s: Sym, ghost stack: set<Sym>) returns (tri: Tri)
      requires Inv(stack) && forall t :: t in stack ==> rank(s) <= rank(t)
      modifies `valid, `curr, `attr
      ensures Inv(stack) && Kept(old(curr), old(attr), old(valid), curr, attr, valid)
      ensures tri == AnyPrompt(DeclOf(k, s).prompts, View().env)
      decreases rank(s), 2
    {
      var ps := DeclOf(k, s).prompts;
      MentionsBelow(s);
      ghost var env := View().env;
      var i := 0;
      tri := NO;
      while i < |ps|
        invariant 0 <= i <= |ps|
        invariant Inv(stack) && Kept(old(curr), old(attr), old(valid), curr, attr, valid) && View().env == env
        invariant Max(tri, PromptsFrom(ps, i, env)) == PromptsFrom(ps, 0, env)
      {
        PromptsStep(ps, i, env);
        var v := CalcCond(ps[i], YES, rank(s), stack);
        tri := Max(tri, v);
        i := i + 1;
      }
      PromptsStep(ps, i, env);
    }

    // sym_calc_visibility
    method CalcVisibility(s: Sym, ghost stack: set<Sym>) returns (a: Attributes)
      requires Inv(stack) && forall t :: t in stack ==> rank(s) <= rank(t)
      modifies `valid, `curr, `attr
      ensures Inv(stack) && Kept(old(curr), old(attr), old(valid), curr, attr, valid)
      ensures a == AttributesOf(k, s, View().env)
      decreases rank(s), 3
    {
      var d := DeclOf(k, s);
      MentionsBelow(s);
      var tri := CalcPrompts(s, stack);
      var dir := CalcCond(DirDep(d.entries), YES, rank(s), stack);
      dir := Promote(k, s, dir);
      var rev := CalcCond(d.revDep, NO, rank(s), stack);
      rev := Promote(k, s, rev);
      var implied := NO;
      if d.implied.Some? && dir != NO {
        implied := CalcCond(d.implied, NO, rank(s), stack);
      }
      implied := Promote(k, s, implied);
      a := Attributes(PromoteVisible(k, s, tri), dir, rev, implied);
    }

    lemma MentionsBelow(s: Sym)
      requires Acyclic(k, rank)
      ensures var d := DeclOf(k, s);
              && (forall i, t :: 0 <= i < |d.prompts| && MentionsCond(d.prompts[i], t) ==> rank(t) < rank(s))
              && (forall i, t :: 0 <= i < |d.defaults| && MentionsCond(d.defaults[i].cond, t) ==> rank(t) < rank(s))
              && (forall i, t :: 0 <= i < |d.defaults| && Contains(d.defaults[i].value, t) ==> rank(t) < rank(s))
              && (forall i, t :: 0 <= i < |d.ranges| && MentionsCond(d.ranges[i].cond, t) ==> rank(t) < rank(s))
              && (forall i :: 0 <= i < |d.ranges| ==> rank(d.ranges[i].lo) < rank(s) && rank(d.ranges[i].hi) < rank(s))
              && (forall t :: MentionsCond(DirDep(d.entries), t) ==> rank(t) < rank(s))
              && (forall t :: MentionsCond(d.revDep, t) ==> rank(t) < rank(s))
              && (forall t :: MentionsCond(d.implied, t) ==> rank(t) < rank(s))
    {
      var d := DeclOf(k, s);
      forall i | 0 <= i < |d.ranges| ensures rank(d.ranges[i].lo) < rank(s) && rank(d.ranges[i].hi) < rank(s) {
        assert Mentions(d, d.ranges[i].lo) && Mentions(d, d.ranges[i].hi);
      }
      assert forall t :: Mentions(d, t) ==> rank(t) < rank(s);
    }

    // sym_get_default_prop
    method GetDefault(s: Sym, ghost stack: set<Sym>) returns (r: Option<Default>)
      requires Inv(stack) && forall t :: t in stack ==> rank(s) <= rank(t)
      modifies `valid, `curr, `attr
      ensures Inv(stack) && Kept(old(curr), old(attr), old(valid), curr, attr, valid)
      ensures r == FirstDefault(DeclOf(k, s).defaults, View().env)
      ensures r.Some? ==> forall t :: Contains(r.value.value, t) || MentionsCond(r.value.cond, t) ==> rank(t) < rank(s)
      decreases rank(s), 2
    {
      var ds := DeclOf(k, s).defaults;
      MentionsBelow(s);
      var i := 0;
      while i < |ds|
        invariant 0 <= i <= |ds|
        invariant Inv(stack) && Kept(old(curr), old(attr), old(valid), curr, attr, valid)
        invariant DefaultFrom(ds, i, View().env) == DefaultFrom(ds, 0, View().env)
      {
        DefaultStep(ds, i, View().env);
        var v := CalcCond(ds[i].cond, YES, rank(s), stack);
        if v != NO {
          return Some(ds[i]);
        }
        i := i + 1;
      }
      DefaultStep(ds, i, View().env);
      r := None;
    }

    // sym_get_range_prop
    method GetRange(s: Sym, ghost stack: set<Sym>) returns (r: Option<Range>)
      requires Inv(stack) && forall t :: t in stack ==> rank(s) <= rank(t)
      modifies `valid, `curr, `attr
      ensures Inv(stack) && Kept(old(curr), old(attr), old(valid), curr, attr, valid)
      ensures r == FirstRange(DeclOf(k, s).ranges, View().env)
      ensures r.Some? ==> rank(r.value.lo) < rank(s) && rank(r.value.hi) < rank(s)
      decreases rank(s), 2
    {
      var rs := DeclOf(k, s).ranges;
      MentionsBelow(s);
      var i := 0;
      while i < |rs|
        invariant 0 <= i <= |rs|
        invariant Inv(stack) && Kept(old(curr), old(attr), old(valid), curr, attr, valid)
        invariant RangeFrom(rs, i, View().env) == RangeFrom(rs, 0, View().env)
      {
        RangeStep(rs, i, View().env);
        var v := CalcCond(rs[i].cond, YES, rank(s), stack);
        if v != NO {
          return Some(rs[i]);
        }
        i := i + 1;
      }
      RangeStep(rs, i, View().env);
      r := None;
    }

    // The default of a bool or tristate symbol.
    method CalcDefaultTri(s: Sym, ghost stack: set<Sym>) returns (t: Tri)
      requires Inv(stack) && forall t :: t in stack ==> rank(s) <= rank(t)
      modifies `valid, `curr, `attr
      ensures Inv(stack) && Kept(old(curr), old(attr), old(valid), curr, attr, valid)
      ensures t == DefaultTri(k, s, View().env)
      decreases rank(s), 3
    {
      t := NO;
      var d := GetDefault(s, stack);
      if d.Some? {
        var v := CalcExpr(d.value.value, rank(s), stack);
        var c := CalcCond(d.value.cond, YES, rank(s), stack);
        t := Min(v, c);
      }
    }

    // The default of a string or number.
    method CalcDefaultStr(s: Sym, ghost stack: set<Sym>) returns (str: string)
      requires Inv(stack) && forall t :: t in stack ==> rank(s) <= rank(t)
      modifies `valid, `curr, `attr
      ensures Inv(stack) && Kept(old(curr), old(attr), old(valid), curr, attr, valid)
      ensures str == DefaultStr(k, s, View())
      decreases rank(s), 3
    {
      str := "";
      var d := GetDefault(s, stack);
      if d.Some? && d.value.value.Var? {
        assert Contains(d.value.value, d.value.value.sym);
        var v := CalcValue(d.value.value.sym, stack);
        str := v.str;
      }
    }

    // sym_validate_range
    method ValidateRange(s: Sym, str: string, ghost stack: set<Sym>) returns (r: string)
      requires Inv(stack) && forall t :: t in stack ==> rank(s) <= rank(t)
      modifies `valid, `curr, `attr
      ensures Inv(stack) && Kept(old(curr), old(attr), old(valid), curr, attr, valid)
      ensures r == Clamp(k, s, str, View())
      decreases rank(s), 4
    {
      r := str;
      if s.Type().Int? || s.Type().Hex? {
        var range := GetRange(s, stack);
        if range.Some? {
          r := ClampInto(s, range.value, str, stack);
        }
      }
    }

    method ClampInto(s: Sym, range: Range, str: string, ghost stack: set<Sym>) returns (r: string)
      requires rank(range.lo) < rank(s) && rank(range.hi) < rank(s)
      requires Inv(stack) && forall t :: t in stack ==> rank(s) <= rank(t)
      modifies `valid, `curr, `attr
      ensures Inv(stack) && Kept(old(curr), old(attr), old(valid), curr, attr, valid)
      ensures r == ClampTo(k, s, range, str, View())
      decreases rank(s), 3
    {
      var val := Strtoll(str, Base(s));
      var bound := CalcRangeValue(range.lo, Base(s), stack);
      if val >= bound {
        bound := CalcRangeValue(range.hi, Base(s), stack);
        if val <= bound {
          return str;
        }
      }
      r := Show(bound, s.Type().Hex?);
    }

    method CalcRangeValue(s: Sym, base: nat, ghost stack: set<Sym>) returns (v: int)
      requires Inv(stack) && forall t :: t in stack ==> rank(s) < rank(t)
      modifies `valid, `curr, `attr
      ensures Inv(stack) && Kept(old(curr), old(attr), old(valid), curr, attr, valid)
      ensures v == RangeValue(k, s, base, View())
      decreases rank(s), 8
    {
      var value := CalcValue(s, stack);
      v := Strtoll(value.str, if s.Type().Int? then 10 else if s.Type().Hex? then 16 else base);
    }

    method CalcTri(s: Sym, a: Attributes, ghost stack: set<Sym>) returns (t: Tri)
      requires Inv(stack) && forall t :: t in stack ==> rank(s) <= rank(t)
      modifies `valid, `curr, `attr
      ensures Inv(stack) && Kept(old(curr), old(attr), old(valid), curr, attr, valid)
      requires a == AttributesOf(k, s, View().env)
      ensures t == TriValue(k, UserOf(users, s), s, View().env)
      decreases rank(s), 4
    {
      if a.visible != NO && s in users {
        t := Min(users[s].tri, a.visible);
      } else {
        t := CalcDefaultTri(s, stack);
        if a.implied != NO {
          t := Max(t, a.implied);
        }
      }
      t := Max(t, a.rev);
      if t == MOD && (ActsBool(k, s) || a.implied == YES) {
        t := YES;
      }
    }

    method CalcStr(s: Sym, a: Attributes, ghost stack: set<Sym>) returns (str: string)
      requires Inv(stack) && forall t :: t in stack ==> rank(s) <= rank(t)
      modifies `valid, `curr, `attr
      ensures Inv(stack) && Kept(old(curr), old(attr), old(valid), curr, attr, valid)
      requires a == AttributesOf(k, s, View().env)
      ensures str == StrValue(k, UserOf(users, s), s, View())
      decreases rank(s), 5
    {
      if a.visible != NO && s in users {
        str := users[s].str;
      } else {
        str := CalcDefaultStr(s, stack);
      }
      str := ValidateRange(s, str, stack);
    }

    // sym_calc_value
    method CalcValue(s: Sym, ghost stack: set<Sym>) returns (v: Value)
      requires Inv(stack)
      requires forall t :: t in stack ==> rank(s) < rank(t)
      modifies `valid, `curr, `attr
      ensures Inv(stack) && Kept(old(curr), old(attr), old(valid), curr, attr, valid)
      ensures s in valid && v == Den(k, rank, users, s)
      ensures Right(k, rank, users, curr, attr, s)
      decreases rank(s), 7
    {
      if s in valid {
        assert Right(k, rank, users, curr, attr, s);
        return curr[s];
      }
      valid := valid + {s};
      v := Evaluate(s, stack + {s});
      assert valid - stack - {s} == valid - (stack + {s});
      EntryAdded(k, rank, users, curr, attr, valid - stack, s, v);
      curr := curr[s := v];
    }

    // The part after the symbol has been marked.
    method Evaluate(s: Sym, ghost stack: set<Sym>) returns (v: Value)
      requires Inv(stack) && forall t :: t in stack ==> rank(s) <= rank(t)
      requires s in stack && s in valid
      modifies `valid, `curr, `attr
      ensures Inv(stack) && Kept(old(curr), old(attr), old(valid) - {s}, curr, attr, valid) && s in valid
      ensures v == Den(k, rank, users, s)
      ensures Evaluated(s) ==> s in attr && attr[s] == AttributesIn(k, rank, users, s)
      decreases rank(s), 6
    {
      DenUnfolds(k, rank, users, s);
      v := Constant(s);
      if Evaluated(s) {
        var a := CalcVisibility(s, stack);
        BusyEntry(k, rank, users, curr, attr, valid - stack, s, a);
        attr := attr[s := a];
        if s.IsLogical() {
          var t := CalcTri(s, a, stack);
          v := Value(t, "n");
        } else {
          var str := CalcStr(s, a, stack);
          v := Value(NO, str);
        }
      }
    }

    // ---- Setting a value ----

    // sym_clear_all_valid, without the recalculation of MODULES
    method ClearAllValid()
      requires Acyclic(k, rank)
      modifies `valid
      ensures valid == {} && Inv({})
    {
      valid := {};
    }

    // sym_set_tristate_value, outside choices
    method SetTristate(s: Sym, val: Tri) returns (ok: bool)
      requires Inv({}) && s in valid && s in curr && s in attr && s.IsLogical()
      modifies `users, `valid
      ensures ok <==> old(curr[s]).tri == val || WithinRange(k, s, AttributesIn(k, rank, old(users), s), val)
      ensures ok ==> users == old(users)[s := Value(val, "n")]
      ensures !ok ==> users == old(users) && valid == old(valid) && Inv({})
      // An accepted change takes effect, and the cache is right again.
      ensures ok && old(curr[s]).tri != val ==> Inv({}) && Den(k, rank, users, s).tri == val
      // Setting the current value leaves the cache alone, and right unless the
      // value is y above a visibility of m.
      ensures ok && old(curr[s]).tri == val ==> valid == old(valid)
      ensures ok && old(curr[s]).tri == val ==>
                (Right(k, rank, users, curr, attr, s) <==> CurrentIsStable(old(attr[s]), val))
      ensures ok && old(curr[s]).tri == val && CurrentIsStable(old(attr[s]), val) ==> Inv({})
    {
      assert Right(k, rank, users, curr, attr, s);
      var current := curr[s].tri;
      if current != val && !WithinRange(k, s, attr[s], val) {
        return false;
      }
      users := users[s := Value(val, "n")];
      if current != val {
        AcceptedSticks(k, rank, old(users), s, val, "n");
        ClearAllValid();
      } else {
        SettingCurrent(k, rank, old(users), curr, attr, valid, s, val);
      }
      ok := true;
    }

    // sym_string_within_range, for strings and numbers
    method CalcStringWithinRange(s: Sym, str: string) returns (ok: bool)
      requires Inv({}) && NUL !in str && (s.Type().Int? || s.Type().Hex? || s.Type().String?)
      modifies `valid, `curr, `attr
      ensures Inv({}) && Kept(old(curr), old(attr), old(valid), curr, attr, valid)
      ensures ok <==> StringWithinRange(k, s, str, View())
    {
      ok := StringValid(s.Type(), str);
      if !ok || s.Type().String? {
        return;
      }
      var range := GetRange(s, {});
      if range.Some? {
        var val := Strtoll(str, Base(s));
        var bound := CalcRangeValue(range.value.lo, Base(s), {});
        ok := val >= bound;
        if ok {
          bound := CalcRangeValue(range.value.hi, Base(s), {});
          ok := val <= bound;
        }
      }
    }

    // sym_set_string_value, for strings and numbers
    method SetString(s: Sym, str: string) returns (ok: bool)
      requires Inv({}) && NUL !in str && (s.Type().Int? || s.Type().Hex? || s.Type().String?)
      modifies `users, `valid, `curr, `attr
      ensures ok <==> StringWithinRange(k, s, str, Full(k, rank, old(users)))
      ensures !ok ==> users == old(users)
      ensures ok ==> s in users && users[s].str == StoredString(s, str)
      ensures ok ==> users == old(users)[s := users[s]]
      ensures !ok || !Revived(old(users), left, s, str) ==> Inv({})
      // A withdrawn setting made again leaves the cached values alone. They
      // are right if that does not change the symbol's value, and wrong if it
      // does and the value is cached.
      ensures ok && Revived(old(users), left, s, str) ==>
                && old(valid) <= valid
                && (Den(k, rank, users, s) == Den(k, rank, old(users), s) ==> Inv({}))
                && (s in valid && Inv({}) ==> Den(k, rank, users, s) == Den(k, rank, old(users), s))
    {
      ok := CalcStringWithinRange(s, str);
      if !ok {
        return;
      }
      var stored := StoredString(s, str);
      var oldval := if s in users then Some(users[s].str) else if s in left then Some(left[s]) else None;
      if stored != str || oldval != Some(str) {
        users := users[s := Value(NO, stored)];
        ClearAllValid();
      } else if s !in users {
        SameValueHarmless(k, rank, users, curr, attr, valid, s, Value(NO, str));
        users := users[s := Value(NO, str)];
      }
    }

    // ---- sym_get_string_default and conf_write_defconfig ----

    method GetStringDefault(s: Sym) returns (r: string)
      requires Inv({})
      modifies `valid, `curr, `attr
      ensures Inv({}) && Kept(old(curr), old(attr), old(valid), curr, attr, valid)
      ensures r == StringDefault(k, s, View())
    {
      var a := CalcVisibility(s, {});
      var val, str := NO, "";
      if s.IsLogical() {
        val := CalcDefaultTri(s, {});
      } else {
        str := CalcDefaultStr(s, {});
      }
      val := Max(val, a.rev);
      if val == MOD && k.modules == NO {
        val := YES;
      }
      if s.Type().Boolean? && val == MOD {
        val := YES;
      }
      if val < a.implied {
        val := a.implied;
      }
      r := if s.IsLogical() then TriName(val) else if Evaluated(s) then str else "";
    }

    // One symbol of the walk over the menus; a changeable symbol is visible,
    // so it has been marked for writing.
    method DefconfigValue(s: Sym) returns (r: Option<Value>)
      requires Inv({})
      modifies `valid, `curr, `attr
      ensures Inv({})
      ensures r == ToWrite(k, rank, users, s)
    {
      var v := CalcValue(s, {});
      DenUnfolds(k, rank, users, s);
      r := None;
      if Evaluated(s) && attr[s].visible > attr[s].rev {
        var d := GetStringDefault(s);
        if StringOf(k, s, v) != d {
          r := Some(v);
        }
      }
    }

    // conf_write_defconfig over the symbols of the menus, in walking order. A
    // symbol met again is skipped, as its mark for writing has been cleared.
    method WriteDefconfig(names: Names, order: seq<Sym>) returns (text: string, ghost minimal: Users)
      requires Acyclic(k, rank)
      requires forall s :: s in k.decls && k.decls[s].prompts != [] ==> s in order
      requires forall s :: s in order ==> Named(names, s)
      modifies `valid, `curr, `attr
      ensures Inv({})
      ensures Exactly(k, rank, users, minimal) && TextOf(k, names, minimal, text)
      ensures IsMinimal(k, rank, users, ReadText(names, map[], text)) <==> AllWritable(k, minimal)
    {
      ClearAllValid();
      text, minimal := "", map[];
      var i: nat, done := 0, {};
      while i < |order|
        invariant Inv({}) && Progress(k, rank, users, names, order, i, done, minimal, text)
      {
        var s := order[i];
        if s in done {
          StepAgain(k, rank, users, names, order, i, done, minimal, text);
        } else {
          var v := DefconfigValue(s);
          StepFirst(k, rank, users, names, order, i, done, minimal, text);
          if v.Some? {
            text, minimal := text + LineOf(k, names, s, v.value), minimal[s := v.value];
          }
          done := done + {s};
        }
        i := i + 1;
      }
      WholeWalk(k, rank, users, names, order, done, minimal, text);
    }
  }
}
