// The minimal configuration as a text: what it takes for the text to restore
// the configuration.
module DefconfigText {
  import opened Tristate
  import opened Exprs
  import opened Symbols
  import opened SymbolLaws
  import opened Defconfig
  import opened ConfText

  predicate AllWritable(k: Kconfig, minimal: Users) {
    forall s :: s in minimal ==> Writable(k, s, minimal[s])
  }

  function StoredAll(minimal: Users): Users {
    map s | s in minimal :: Stored(s, minimal[s])
  }

  // The lines of the settings have been written, in some order.
  ghost predicate TextOf(k: Kconfig, names: Names, minimal: Users, text: string) {
    AllWritable(k, minimal) ==> WholeLines(text) && ReadText(names, map[], text) == StoredAll(minimal)
  }

  lemma Extended(k: Kconfig, minimal: Users, s: Sym, v: Value)
    requires s !in minimal && AllWritable(k, minimal[s := v])
    ensures AllWritable(k, minimal) && Writable(k, s, v)
    ensures StoredAll(minimal[s := v]) == StoredAll(minimal)[s := Stored(s, v)]
  {
    var extended := minimal[s := v];
    assert s in extended;
    forall t | t in minimal ensures Writable(k, t, minimal[t]) {
      assert t in extended && extended[t] == minimal[t];
    }
  }

  lemma TextExtended(k: Kconfig, names: Names, minimal: Users, text: string, s: Sym, v: Value)
    requires TextOf(k, names, minimal, text) && s !in minimal && Named(names, s)
    ensures TextOf(k, names, minimal[s := v], text + LineOf(k, names, s, v))
  {
    if AllWritable(k, minimal[s := v]) {
      Extended(k, minimal, s, v);
      ReadAfter(k, names, text, s, v);
    }
  }

  // The symbols walked over so far.
  ghost predicate Done(done: set<Sym>, walked: seq<Sym>) {
    forall s :: s in done <==> s in walked
  }

  // After i steps of the walk.
  ghost predicate Progress(k: Kconfig, rank: Rank, users: Users, names: Names, order: seq<Sym>, i: nat,
                           done: set<Sym>, minimal: Users, text: string)
  {
    && Acyclic(k, rank) && i <= |order|
    && Done(done, order[..i])
    && Collected(EmittedIn(k, rank, users), ValueIn(k, rank, users), order[..i], minimal)
    && TextOf(k, names, minimal, text)
  }

  // The value to be written for a symbol, if any.
  ghost function ToWrite(k: Kconfig, rank: Rank, users: Users, s: Sym): Option<Value>
    requires Acyclic(k, rank)
  {
    if Emitted(k, UserOf(users, s), s, Full(k, rank, users)) then Some(Den(k, rank, users, s)) else None
  }

  lemma TakeNext<T>(s: seq<T>, i: nat)
    requires i < |s|
    ensures s[..i + 1] == s[..i] + [s[i]]
  {
  }

  lemma StepAgain(k: Kconfig, rank: Rank, users: Users, names: Names, order: seq<Sym>, i: nat,
                  done: set<Sym>, minimal: Users, text: string)
    requires Progress(k, rank, users, names, order, i, done, minimal, text) && i < |order| && order[i] in done
    ensures Progress(k, rank, users, names, order, i + 1, done, minimal, text)
  {
    TakeNext(order, i);
    CollectedAgain(EmittedIn(k, rank, users), ValueIn(k, rank, users), order[..i], minimal, order[i]);
  }

  lemma StepFirst(k: Kconfig, rank: Rank, users: Users, names: Names, order: seq<Sym>, i: nat,
                  done: set<Sym>, minimal: Users, text: string)
    requires Progress(k, rank, users, names, order, i, done, minimal, text) && i < |order|
    requires order[i] !in done && Named(names, order[i])
    ensures var s := order[i];
            var done' := done + {s};
            match ToWrite(k, rank, users, s)
            case None => Progress(k, rank, users, names, order, i + 1, done', minimal, text)
            case Some(v) => Progress(k, rank, users, names, order, i + 1, done', minimal[s := v], text + LineOf(k, names, s, v))
  {
    TakeNext(order, i);
    CollectOne(EmittedIn(k, rank, users), ValueIn(k, rank, users), order[..i], minimal, order[i]);
    TextExtended(k, names, minimal, text, order[i], Den(k, rank, users, order[i]));
  }

  lemma WholeWalk(k: Kconfig, rank: Rank, users: Users, names: Names, order: seq<Sym>,
                  done: set<Sym>, minimal: Users, text: string)
    requires Progress(k, rank, users, names, order, |order|, done, minimal, text)
    requires forall s :: s in k.decls && k.decls[s].prompts != [] ==> s in order
    ensures Exactly(k, rank, users, minimal) && TextOf(k, names, minimal, text)
    ensures IsMinimal(k, rank, users, ReadText(names, map[], text)) <==> AllWritable(k, minimal)
  {
    assert order[..|order|] == order;
    CollectedAll(k, rank, users, order, minimal);
    TextIsMinimal(k, rank, users, names, minimal, text);
  }

  // The minimal settings with the values of the configuration itself.
  ghost predicate Exactly(k: Kconfig, rank: Rank, users: Users, minimal: Users)
    requires Acyclic(k, rank)
  {
    IsMinimal(k, rank, users, minimal) && forall s :: s in minimal ==> minimal[s] == Den(k, rank, users, s)
  }

  // What is read from the text are the minimal settings again, exactly if all
  // values in it are writable ones.
  lemma TextIsMinimal(k: Kconfig, rank: Rank, users: Users, names: Names, minimal: Users, text: string)
    requires Acyclic(k, rank) && Exactly(k, rank, users, minimal) && TextOf(k, names, minimal, text)
    ensures IsMinimal(k, rank, users, ReadText(names, map[], text)) <==> AllWritable(k, minimal)
  {
    var def := ReadText(names, map[], text);
    ReadIsReadable(names, map[], text);
    if AllWritable(k, minimal) {
      StoredIsMinimal(k, rank, users, minimal);
    } else if IsMinimal(k, rank, users, def) {
      ReadableIsWritable(k, rank, users, minimal, def);
    }
  }

  lemma StoredIsMinimal(k: Kconfig, rank: Rank, users: Users, minimal: Users)
    requires Acyclic(k, rank) && Exactly(k, rank, users, minimal)
    ensures IsMinimal(k, rank, users, StoredAll(minimal))
  {
    var def := StoredAll(minimal);
    forall s: Sym ensures s in def <==> Emitted(k, UserOf(users, s), s, Full(k, rank, users)) {
      assert s in minimal <==> s in def;
    }
  }

  lemma ReadableIsWritable(k: Kconfig, rank: Rank, users: Users, minimal: Users, def: Users)
    requires Acyclic(k, rank) && Exactly(k, rank, users, minimal)
    requires AllReadable(def) && IsMinimal(k, rank, users, def)
    ensures AllWritable(k, minimal)
  {
    forall s | s in minimal ensures Writable(k, s, minimal[s]) {
      assert s in def && Readable(s, def[s]);
      if s.IsLogical() && ActsBool(k, s) {
        BoolNeverMod(k, rank, users, s);
      }
    }
  }

  // From the configuration to the text of its minimal form and back: every
  // symbol has its value again.
  lemma TextRestores(k: Kconfig, rank: Rank, users: Users, names: Names, minimal: Users, text: string, s: Sym)
    requires Acyclic(k, rank)
    requires Exactly(k, rank, users, minimal) && TextOf(k, names, minimal, text) && AllWritable(k, minimal)
    requires forall t: Sym :: !Lost(k, UserOf(users, t), t, Full(k, rank, users))
    ensures Den(k, rank, ReadText(names, map[], text), s) == Den(k, rank, users, s)
  {
    TextIsMinimal(k, rank, users, names, minimal, text);
    MinimalConfigRestores(k, rank, users, ReadText(names, map[], text), s);
  }
}
