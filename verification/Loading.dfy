// What conf_read does to the settings it has read: after evaluating, it
// withdraws the strings and numbers that are out of range.
module Loading {
  import opened Tristate
  import opened Exprs
  import opened MenuDependencies
  import opened Numerals
  import opened Quoting
  import opened Symbols
  import opened SymbolLaws
  import opened StringSettings
  import opened Defconfig
  import opened ConfText
  import opened DefconfigText
  import opened SymbolCache

  predicate IsString(s: Sym) {
    s.Type().Int? || s.Type().Hex? || s.Type().String?
  }

  predicate Withdrawn(k: Kconfig, s: Sym, setting: Option<Value>, view: View) {
    setting.Some? && IsString(s) && !StringWithinRange(k, s, setting.value.str, view)
  }

  function Loaded(k: Kconfig, s: Sym, setting: Option<Value>, view: View): Option<Value> {
    if Withdrawn(k, s, setting, view) then None else setting
  }

  // ---- One symbol ----

  // The strings and numbers that are lost by writing the minimal form and
  // loading it: of a changeable symbol, if the value is out of its own range
  // and the default gives another one.
  predicate LostInLoading(k: Kconfig, user: Option<Value>, s: Sym, view: View) {
    var a, default := AttributesOf(k, s, view.env), Clamp(k, s, DefaultStr(k, s, view), view);
    && IsString(s) && a.visible != NO
    && if a.visible > a.rev then
         var value := Compute(k, user, s, view).str;
         !StringWithinRange(k, s, value, view) && default != value
       else
         user.Some? && Clamp(k, s, user.value.str, view) != default
  }

  lemma SymbolLoaded(k: Kconfig, user: Option<Value>, s: Sym, view: View, kept: Option<Value>)
    requires kept.Some? <==> Emitted(k, user, s, view)
    requires kept.Some? ==>
               var v := Compute(k, user, s, view);
               if s.IsLogical() then kept.value.tri == v.tri else kept.value.str == v.str
    ensures Compute(k, Loaded(k, s, kept, view), s, view) == Compute(k, user, s, view) <==>
            !SettingLost(k, user, s, view) && !LostInLoading(k, user, s, view)
  {
    if IsString(s) {
      ClampExact(k, s, Compute(k, user, s, view).str, view);
    } else {
      SymbolRestored(k, user, s, view, kept);
    }
  }

  // ---- A whole configuration ----

  // The settings that are left if ranges show what they show in the full
  // configuration.
  ghost predicate IsLoaded(k: Kconfig, rank: Rank, users: Users, minimal: Users, loaded: Users)
    requires Acyclic(k, rank)
  {
    forall s: Sym :: UserOf(loaded, s) == Loaded(k, s, UserOf(minimal, s), Full(k, rank, users))
  }

  lemma LoadedComputation(k: Kconfig, rank: Rank, users: Users, minimal: Users, loaded: Users, t: Sym)
    requires Acyclic(k, rank) && IsMinimal(k, rank, users, minimal) && IsLoaded(k, rank, users, minimal, loaded)
    ensures var view := Full(k, rank, users);
            Compute(k, UserOf(loaded, t), t, view) == Compute(k, UserOf(users, t), t, view) <==>
            !SettingLost(k, UserOf(users, t), t, view) && !LostInLoading(k, UserOf(users, t), t, view)
  {
    DenUnfolds(k, rank, users, t);
    SymbolLoaded(k, UserOf(users, t), t, Full(k, rank, users), UserOf(minimal, t));
  }

  // They restore every value if no setting is lost, ...
  lemma LoadingRestores(k: Kconfig, rank: Rank, users: Users, minimal: Users, loaded: Users, s: Sym)
    requires Acyclic(k, rank) && IsMinimal(k, rank, users, minimal) && IsLoaded(k, rank, users, minimal, loaded)
    requires forall t: Sym ::
               var view := Full(k, rank, users);
               !SettingLost(k, UserOf(users, t), t, view) && !LostInLoading(k, UserOf(users, t), t, view)
    ensures Den(k, rank, loaded, s) == Den(k, rank, users, s)
  {
    var view := Full(k, rank, users);
    forall t: Sym ensures Compute(k, UserOf(loaded, t), t, view) == Compute(k, UserOf(users, t), t, view) {
      LoadedComputation(k, rank, users, minimal, loaded, t);
    }
    SameValues(k, rank, users, loaded, s);
  }

  // ... and only then.
  lemma LoadingRestoresOnlyIf(k: Kconfig, rank: Rank, users: Users, minimal: Users, loaded: Users, t: Sym)
    requires Acyclic(k, rank) && IsMinimal(k, rank, users, minimal) && IsLoaded(k, rank, users, minimal, loaded)
    requires forall s: Sym :: Den(k, rank, loaded, s) == Den(k, rank, users, s)
    ensures var view := Full(k, rank, users);
            !SettingLost(k, UserOf(users, t), t, view) && !LostInLoading(k, UserOf(users, t), t, view)
  {
    DenUnfolds(k, rank, users, t);
    DenUnfolds(k, rank, loaded, t);
    ComputeSupport(k, UserOf(loaded, t), t, Full(k, rank, loaded), Full(k, rank, users), (u: Sym) => true);
    LoadedComputation(k, rank, users, minimal, loaded, t);
  }

  // ---- Which numbers are lost ----

  // With an empty range that can be read back: exactly those that the default
  // is not on the same side as.
  lemma EmptyRangeLoaded(k: Kconfig, user: Option<Value>, s: Sym, view: View)
    requires AttributesOf(k, s, view.env).visible != NO && DeclOf(k, s).revDep == None
    requires BoundsReadBack(k, s, view) && !RangeNotEmpty(k, s, view)
    ensures var (lo, hi) := BoundsOf(k, s, view).value;
            var str, default := if user.Some? then user.value.str else DefaultStr(k, s, view), DefaultStr(k, s, view);
            LostInLoading(k, user, s, view) <==> (Strtoll(str, Base(s)) < lo) != (Strtoll(default, Base(s)) < lo)
  {
    var (lo, hi) := BoundsOf(k, s, view).value;
    var str, default := if user.Some? then user.value.str else DefaultStr(k, s, view), DefaultStr(k, s, view);
    ClampIs(k, s, str, lo, hi, view);
    ClampIs(k, s, default, lo, hi, view);
    NothingInEmptyRange(k, s, Clamp(k, s, str, view), view);
    assert LostInLoading(k, user, s, view) <==> Clamped(s, default, lo, hi) != Clamped(s, str, lo, hi);
    if Show(lo, s.Type().Hex?) == Show(hi, s.Type().Hex?) {
      ShowInjective(lo, hi, s.Type().Hex?);
    }
  }

  lemma NothingInEmptyRange(k: Kconfig, s: Sym, str: string, view: View)
    requires !RangeNotEmpty(k, s, view)
    ensures !StringWithinRange(k, s, str, view)
  {
  }

  lemma OutAbove(k: Kconfig, s: Sym, lo: int, hi: int, view: View)
    requires s.Type().Hex? && BoundsOf(k, s, view) == Some((lo, hi))
    requires hi < 0 && Strtoll(Show(hi, true), 16) == MaxLong
    ensures !StringWithinRange(k, s, Show(hi, true), view)
  {
  }

  // With a negative upper bound in hexadecimal: of the numbers above it those
  // whose default is not above it as well, unless it is clamped to the same.
  lemma NegativeBoundLoaded(k: Kconfig, user: Option<Value>, s: Sym, view: View)
    requires s.Type().Hex? && AttributesOf(k, s, view.env).visible != NO && DeclOf(k, s).revDep == None
    requires BoundsOf(k, s, view).Some?
    requires var (lo, hi) := BoundsOf(k, s, view).value;
             lo <= hi < 0 && hi < Strtoll(if user.Some? then user.value.str else DefaultStr(k, s, view), 16)
    ensures var (lo, hi) := BoundsOf(k, s, view).value;
            var default := Strtoll(DefaultStr(k, s, view), 16);
            LostInLoading(k, user, s, view) <==> !(default > hi || (default < lo && lo == hi))
  {
    var (lo, hi) := BoundsOf(k, s, view).value;
    var str := if user.Some? then user.value.str else DefaultStr(k, s, view);
    ClampIs(k, s, str, lo, hi, view);
    ClampIs(k, s, DefaultStr(k, s, view), lo, hi, view);
    ShownReadsBack(s, hi);
    OutAbove(k, s, lo, hi, view);
    assert LostInLoading(k, user, s, view) <==> Clamped(s, DefaultStr(k, s, view), lo, hi) != Show(hi, true);
    if Show(lo, true) == Show(hi, true) {
      ShowInjective(lo, hi, true);
    }
  }

  // The value of a plain number that can be written at all is within range.
  lemma PlainNumberWithinRange(k: Kconfig, s: Sym, str: string, view: View)
    requires IsString(s) && PlainNumber(k, s, view)
    requires ValidString(s.Type(), Clamp(k, s, str, view))
    ensures StringWithinRange(k, s, Clamp(k, s, str, view), view)
  {
    if BoundsOf(k, s, view).Some? {
      var (lo, hi) := BoundsOf(k, s, view).value;
      ClampIs(k, s, str, lo, hi, view);
      ShownReadsBack(s, lo);
      ShownReadsBack(s, hi);
    }
  }

  // ---- Withdrawing what does not matter ----

  ghost predicate SameDens(k: Kconfig, rank: Rank, users: Users, users': Users)
    requires Acyclic(k, rank)
  {
    forall t: Sym :: Den(k, rank, users', t) == Den(k, rank, users, t)
  }

  // The settings without that of s.
  function Without(users: Users, s: Sym): (r: Users)
    ensures s !in r && OthersKept(users, r, s)
  {
    users - {s}
  }

  ghost predicate OthersKept(users: Users, users': Users, s: Sym) {
    forall t :: t in users && t != s ==> t in users'
  }

  // The setting of an invisible symbol has no effect.
  lemma InvisibleHarmless(k: Kconfig, rank: Rank, users: Users, s: Sym)
    requires Acyclic(k, rank)
    requires Evaluated(s) ==> AttributesIn(k, rank, users, s).visible == NO
    ensures SameDens(k, rank, users, Without(users, s))
  {
    forall t: Sym ensures Den(k, rank, Without(users, s), t) == Den(k, rank, users, t) {
      SameValues(k, rank, users, Without(users, s), t);
    }
  }

  // If all values are the same, so is what is within range.
  lemma SameWithin(k: Kconfig, rank: Rank, users: Users, users': Users, s: Sym, str: string)
    requires Acyclic(k, rank) && SameDens(k, rank, users, users')
    ensures StringWithinRange(k, s, str, Full(k, rank, users')) <==> StringWithinRange(k, s, str, Full(k, rank, users))
  {
    FullAgrees(k, rank, users, users');
    WithinSupport(k, s, str, Full(k, rank, users'), Full(k, rank, users));
  }

  lemma FullAgrees(k: Kconfig, rank: Rank, users: Users, users': Users)
    requires Acyclic(k, rank) && SameDens(k, rank, users, users')
    ensures Agree(Full(k, rank, users'), Full(k, rank, users), (t: Sym) => true)
  {
  }

  // What is left of the settings, with the values unchanged.
  ghost predicate Remaining(k: Kconfig, rank: Rank, read: Users, users: Users) {
    && Acyclic(k, rank) && SameDens(k, rank, read, users)
    && forall s :: s in users ==> s in read && users[s] == read[s]
  }

  lemma DropInvisible(k: Kconfig, rank: Rank, read: Users, users: Users, curr: map<Sym, Value>, attr: map<Sym, Attributes>,
                      valid: set<Sym>, s: Sym)
    requires Remaining(k, rank, read, users) && AllRight(k, rank, users, curr, attr, valid) && s in valid
    requires Evaluated(s) ==> s in attr && attr[s].visible == NO
    ensures Remaining(k, rank, read, Without(users, s)) && AllRight(k, rank, Without(users, s), curr, attr, valid)
  {
    assert Right(k, rank, users, curr, attr, s);
    InvisibleHarmless(k, rank, users, s);
    StillRight(k, rank, users, Without(users, s), curr, attr, valid);
  }

  // No setting of the symbols up to i is withdrawn as out of range.
  ghost predicate NoneWithdrawn(k: Kconfig, rank: Rank, read: Users, syms: seq<Sym>, i: nat) {
    && Acyclic(k, rank) && i <= |syms|
    && forall j :: 0 <= j < i ==> !Withdrawn(k, syms[j], UserOf(read, syms[j]), Full(k, rank, read))
  }

  lemma NoneWithdrawnStep(k: Kconfig, rank: Rank, read: Users, syms: seq<Sym>, i: nat)
    requires NoneWithdrawn(k, rank, read, syms, i) && i < |syms|
    ensures NoneWithdrawn(k, rank, read, syms, i + 1) <==> !Withdrawn(k, syms[i], UserOf(read, syms[i]), Full(k, rank, read))
    ensures NoneWithdrawn(k, rank, read, syms, |syms|) ==> NoneWithdrawn(k, rank, read, syms, i + 1)
  {
  }

  lemma RemainingAt(k: Kconfig, rank: Rank, read: Users, users: Users, s: Sym)
    requires Remaining(k, rank, read, users) && s in users
    ensures s in read && users[s] == read[s]
  {
  }

  lemma AllRemain(k: Kconfig, rank: Rank, read: Users)
    requires Acyclic(k, rank)
    ensures Remaining(k, rank, read, read)
  {
  }

  // ---- The text of a minimal configuration, loaded ----

  ghost predicate NothingLost(k: Kconfig, rank: Rank, users: Users)
    requires Acyclic(k, rank)
  {
    && (forall t: Sym :: PlainNumber(k, t, Full(k, rank, users)))
    && (forall t: Sym :: !SettingLost(k, UserOf(users, t), t, Full(k, rank, users)))
  }

  lemma SameDensTransitive(k: Kconfig, rank: Rank, a: Users, b: Users, c: Users)
    requires Acyclic(k, rank)
    ensures SameDens(k, rank, a, b) && SameDens(k, rank, b, c) ==> SameDens(k, rank, a, c)
  {
  }

  // If no setting is lost and the numbers are plain ones, the loader withdraws
  // nothing of what the text says, and every symbol has its value again.
  lemma TextLoads(k: Kconfig, rank: Rank, users: Users, names: Names, minimal: Users, text: string, syms: seq<Sym>)
    requires Acyclic(k, rank)
    ensures
      && Exactly(k, rank, users, minimal) && TextOf(k, names, minimal, text)
      && AllWritable(k, minimal) && NothingLost(k, rank, users) ==>
        NoneWithdrawn(k, rank, ReadText(names, map[], text), syms, |syms|)
        && SameDens(k, rank, users, ReadText(names, map[], text))
  {
    if && Exactly(k, rank, users, minimal) && TextOf(k, names, minimal, text)
       && AllWritable(k, minimal) && NothingLost(k, rank, users) {
      WritableTextLoads(k, rank, users, names, minimal, text, syms);
    }
  }

  lemma WritableTextLoads(k: Kconfig, rank: Rank, users: Users, names: Names, minimal: Users, text: string, syms: seq<Sym>)
    requires Acyclic(k, rank) && NothingLost(k, rank, users)
    requires Exactly(k, rank, users, minimal) && TextOf(k, names, minimal, text) && AllWritable(k, minimal)
    ensures NoneWithdrawn(k, rank, ReadText(names, map[], text), syms, |syms|)
    ensures SameDens(k, rank, users, ReadText(names, map[], text))
  {
    forall t: Sym ensures !Lost(k, UserOf(users, t), t, Full(k, rank, users)) {
      PlainNumberKept(k, UserOf(users, t), t, Full(k, rank, users));
    }
    forall t: Sym ensures Den(k, rank, ReadText(names, map[], text), t) == Den(k, rank, users, t) {
      TextRestores(k, rank, users, names, minimal, text, t);
    }
    forall j | 0 <= j < |syms|
      ensures !Withdrawn(k, syms[j], UserOf(StoredAll(minimal), syms[j]), Full(k, rank, StoredAll(minimal)))
    {
      MinimalNotWithdrawn(k, rank, users, minimal, StoredAll(minimal), syms[j]);
    }
  }

  lemma MinimalNotWithdrawn(k: Kconfig, rank: Rank, users: Users, minimal: Users, read: Users, t: Sym)
    requires Acyclic(k, rank) && Exactly(k, rank, users, minimal) && AllWritable(k, minimal)
    requires read == StoredAll(minimal) && SameDens(k, rank, users, read)
    requires PlainNumber(k, t, Full(k, rank, users))
    ensures !Withdrawn(k, t, UserOf(read, t), Full(k, rank, read))
  {
    if t in read && IsString(t) {
      assert t in minimal && Writable(k, t, minimal[t]);
      KeptWithinRange(k, rank, users, t);
      SameWithin(k, rank, users, read, t, read[t].str);
    }
  }

  // A plain number's value, if it can be written, is within range.
  lemma KeptWithinRange(k: Kconfig, rank: Rank, users: Users, s: Sym)
    requires Acyclic(k, rank) && IsString(s) && PlainNumber(k, s, Full(k, rank, users))
    requires ValidString(s.Type(), Den(k, rank, users, s).str)
    ensures StringWithinRange(k, s, Den(k, rank, users, s).str, Full(k, rank, users))
  {
    var view := Full(k, rank, users);
    DenUnfolds(k, rank, users, s);
    var visible := AttributesOf(k, s, view.env).visible;
    PlainNumberWithinRange(k, s, if visible != NO && s in users then users[s].str else DefaultStr(k, s, view), view);
  }
}
