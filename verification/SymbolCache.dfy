// What it means for cached values to be right.
module SymbolCache {
  import opened Tristate
  import opened Exprs
  import opened MenuDependencies
  import opened Symbols
  import opened SymbolLaws
  import opened StringSettings

  // A cached entry is right if it is the value the settings determine.
  ghost predicate Right(k: Kconfig, rank: Rank, users: Users, curr: map<Sym, Value>, attr: map<Sym, Attributes>, s: Sym) {
    && Acyclic(k, rank)
    && s in curr && curr[s] == Den(k, rank, users, s)
    && (Evaluated(s) ==> s in attr && attr[s] == AttributesIn(k, rank, users, s))
  }

  // Symbols whose value is worked out, as opposed to standing for their name.
  predicate Evaluated(s: Sym) {
    s.IsLogical() || s.Type().Int? || s.Type().Hex? || s.Type().String?
  }

  ghost predicate AllRight(k: Kconfig, rank: Rank, users: Users, curr: map<Sym, Value>, attr: map<Sym, Attributes>, valid: set<Sym>) {
    Acyclic(k, rank) && forall s :: s in valid ==> Right(k, rank, users, curr, attr, s)
  }

  lemma EntryAdded(k: Kconfig, rank: Rank, users: Users, curr: map<Sym, Value>, attr: map<Sym, Attributes>,
                   valid: set<Sym>, s: Sym, v: Value)
    requires AllRight(k, rank, users, curr, attr, valid - {s})
    requires v == Den(k, rank, users, s)
    requires Evaluated(s) ==> s in attr && attr[s] == AttributesIn(k, rank, users, s)
    ensures AllRight(k, rank, users, curr[s := v], attr, valid)
  {
    forall t | t in valid ensures Right(k, rank, users, curr[s := v], attr, t) {
      if t != s {
        assert t in valid - {s};
      }
    }
  }

  lemma BusyEntry(k: Kconfig, rank: Rank, users: Users, curr: map<Sym, Value>, attr: map<Sym, Attributes>,
                  valid: set<Sym>, s: Sym, a: Attributes)
    requires AllRight(k, rank, users, curr, attr, valid) && s !in valid
    ensures AllRight(k, rank, users, curr, attr[s := a], valid)
  {
    forall t | t in valid ensures Right(k, rank, users, curr, attr[s := a], t) {
    }
  }

  lemma SettingRight(k: Kconfig, rank: Rank, users: Users, curr: map<Sym, Value>, attr: map<Sym, Attributes>, s: Sym, val: Tri)
    requires Right(k, rank, users, curr, attr, s) && s.IsLogical() && curr[s].tri == val
    ensures Right(k, rank, users[s := Value(val, "n")], curr, attr, s) <==> CurrentIsStable(attr[s], val)
  {
    SettingCurrentExact(k, rank, users, s, "n");
    SettingKeepsAttributes(k, rank, users, s, Value(val, "n"));
  }

  lemma SettingCurrentHarmless(k: Kconfig, rank: Rank, users: Users, curr: map<Sym, Value>, attr: map<Sym, Attributes>,
                               valid: set<Sym>, s: Sym, val: Tri)
    requires AllRight(k, rank, users, curr, attr, valid) && s in valid && s.IsLogical()
    requires curr[s].tri == val && CurrentIsStable(attr[s], val)
    ensures AllRight(k, rank, users[s := Value(val, "n")], curr, attr, valid)
  {
    var users' := users[s := Value(val, "n")];
    assert Right(k, rank, users, curr, attr, s);
    forall t: Sym ensures Den(k, rank, users', t) == Den(k, rank, users, t) {
      StableChangesNothing(k, rank, users, s, val, t);
    }
    StillRight(k, rank, users, users', curr, attr, valid);
  }

  lemma StableChangesNothing(k: Kconfig, rank: Rank, users: Users, s: Sym, val: Tri, t: Sym)
    requires Acyclic(k, rank) && s.IsLogical()
    requires Den(k, rank, users, s).tri == val && CurrentIsStable(AttributesIn(k, rank, users, s), val)
    ensures Den(k, rank, users[s := Value(val, "n")], t) == Den(k, rank, users, t)
  {
    var users' := users[s := Value(val, "n")];
    SettingCurrentExact(k, rank, users, s, "n");
    SettingKeepsAttributes(k, rank, users, s, Value(val, "n"));
    DenUnfolds(k, rank, users, s);
    SameValues(k, rank, users, users', t);
  }

  lemma SettingCurrent(k: Kconfig, rank: Rank, users: Users, curr: map<Sym, Value>, attr: map<Sym, Attributes>,
                       valid: set<Sym>, s: Sym, val: Tri)
    requires AllRight(k, rank, users, curr, attr, valid) && s in valid && s.IsLogical()
    requires s in curr && s in attr && curr[s].tri == val
    ensures var users' := users[s := Value(val, "n")];
            && (Right(k, rank, users', curr, attr, s) <==> CurrentIsStable(attr[s], val))
            && (CurrentIsStable(attr[s], val) ==> AllRight(k, rank, users', curr, attr, valid))
  {
    assert Right(k, rank, users, curr, attr, s);
    SettingRight(k, rank, users, curr, attr, s, val);
    if CurrentIsStable(attr[s], val) {
      SettingCurrentHarmless(k, rank, users, curr, attr, valid, s, val);
    }
  }

  lemma StillRight(k: Kconfig, rank: Rank, users: Users, users': Users, curr: map<Sym, Value>, attr: map<Sym, Attributes>,
                   valid: set<Sym>)
    requires AllRight(k, rank, users, curr, attr, valid)
    requires forall t: Sym :: Den(k, rank, users', t) == Den(k, rank, users, t)
    ensures AllRight(k, rank, users', curr, attr, valid)
  {
    forall t | t in valid ensures Right(k, rank, users', curr, attr, t) {
      assert Right(k, rank, users, curr, attr, t);
      ComputeSupport(k, None, t, Full(k, rank, users'), Full(k, rank, users), (u: Sym) => true);
    }
  }

  // A setting that leaves its own symbol's value alone leaves all values
  // alone; one that does not makes the cached value wrong.
  lemma SameValueHarmless(k: Kconfig, rank: Rank, users: Users, curr: map<Sym, Value>, attr: map<Sym, Attributes>,
                          valid: set<Sym>, s: Sym, v: Value)
    requires AllRight(k, rank, users, curr, attr, valid)
    ensures Den(k, rank, users[s := v], s) == Den(k, rank, users, s) ==> AllRight(k, rank, users[s := v], curr, attr, valid)
    ensures s in valid && AllRight(k, rank, users[s := v], curr, attr, valid) ==>
              Den(k, rank, users[s := v], s) == Den(k, rank, users, s)
  {
    var users' := users[s := v];
    if Den(k, rank, users', s) == Den(k, rank, users, s) {
      forall t: Sym ensures Den(k, rank, users', t) == Den(k, rank, users, t) {
        SameDen(k, rank, users, s, v, t);
      }
      StillRight(k, rank, users, users', curr, attr, valid);
    }
    if s in valid && AllRight(k, rank, users', curr, attr, valid) {
      assert Right(k, rank, users, curr, attr, s) && Right(k, rank, users', curr, attr, s);
    }
  }

  lemma SameDen(k: Kconfig, rank: Rank, users: Users, s: Sym, v: Value, t: Sym)
    requires Acyclic(k, rank) && Den(k, rank, users[s := v], s) == Den(k, rank, users, s)
    ensures Den(k, rank, users[s := v], t) == Den(k, rank, users, t)
  {
    SettingKeepsAttributes(k, rank, users, s, v);
    DenUnfolds(k, rank, users, s);
    SameValues(k, rank, users, users[s := v], t);
  }

  // A withdrawn setting that is made again: the string is still there.
  predicate Revived(users: Users, left: map<Sym, string>, s: Sym, str: string) {
    s !in users && s in left && left[s] == str && StoredString(s, str) == str
  }

  ghost predicate Kept(curr0: map<Sym, Value>, attr0: map<Sym, Attributes>, valid0: set<Sym>,
                       curr: map<Sym, Value>, attr: map<Sym, Attributes>, valid: set<Sym>)
  {
    && valid0 <= valid
    && forall s :: s in valid0 ==>
         && (s in curr0 ==> s in curr && curr[s] == curr0[s])
         && (s in attr0 ==> s in attr && attr[s] == attr0[s])
  }
}
