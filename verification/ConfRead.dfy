// conf_read: the settings are read, everything is evaluated, and then settings
// are withdrawn.
module ConfRead {
  import opened Tristate
  import opened Exprs
  import opened Symbols
  import opened SymbolLaws
  import opened StringSettings
  import opened Defconfig
  import opened ConfText
  import opened DefconfigText
  import opened Loading
  import opened Quoting
  import opened SymbolCache
  import opened SymbolTable

  // ---- The two loops ----

  method CalcAll(table: Table, syms: seq<Sym>)
    requires table.Inv({})
    modifies table`valid, table`curr, table`attr
    ensures table.Inv({}) && forall s :: s in syms ==> s in table.valid
  {
    var i := 0;
    while i < |syms|
      invariant 0 <= i <= |syms| && table.Inv({})
      invariant forall j :: 0 <= j < i ==> syms[j] in table.valid
    {
      ghost var before := table.valid;
      var v := table.CalcValue(syms[i], {});
      assert before <= table.valid;
      i := i + 1;
    }
  }

  // The setting of an invisible symbol is withdrawn if nothing has been found to
  // be unsaved.
  method DropSetting(table: Table, ghost read: Users, s: Sym)
    requires table.Inv({}) && s in table.valid && s in table.users
    requires Evaluated(s) ==> s in table.attr && table.attr[s].visible == NO
    requires Remaining(table.k, table.rank, read, table.users)
    modifies table`users, table`left
    ensures table.Inv({}) && Remaining(table.k, table.rank, read, table.users)
    ensures OthersKept(old(table.users), table.users, s)
  {
    var rest := Without(table.users, s);
    DropInvisible(table.k, table.rank, read, table.users, table.curr, table.attr, table.valid, s);
    if IsString(s) {
      table.left := table.left[s := table.users[s].str];
    }
    table.users := rest;
  }

  // A string or number is withdrawn if it is out of range.
  method CheckSetting(table: Table, ghost read: Users, s: Sym, str: string) returns (out: bool)
    requires table.Inv({}) && s in read && read[s].str == str && IsString(s) && NUL !in str
    requires Remaining(table.k, table.rank, read, table.users)
    modifies table`users, table`valid, table`curr, table`attr, table`left
    ensures out <==> Withdrawn(table.k, s, Some(read[s]), Full(table.k, table.rank, read))
    ensures !out ==> table.Inv({}) && table.users == old(table.users) && old(table.valid) <= table.valid
    ensures out ==> s !in table.users && s !in table.valid && s in table.left && table.left[s] == str
  {
    SameWithin(table.k, table.rank, read, table.users, s, str);
    var ok := table.CalcStringWithinRange(s, str);
    out := !ok;
    if out {
      table.users := Without(table.users, s);
      table.left := table.left[s := str];
      table.valid := table.valid - {s};
    }
  }

  // One symbol with a setting, in the second loop.
  method CheckOne(table: Table, read: Users, s: Sym, unsaved: bool) returns (out: bool)
    requires table.Inv({}) && s in table.valid && s in table.users && (IsString(s) ==> NUL !in table.users[s].str)
    requires Remaining(table.k, table.rank, read, table.users)
    modifies table`users, table`valid, table`curr, table`attr, table`left
    ensures out <==> Withdrawn(table.k, s, UserOf(read, s), Full(table.k, table.rank, read))
    ensures !out ==> table.Inv({}) && Remaining(table.k, table.rank, read, table.users) && old(table.valid) <= table.valid
    ensures !out ==> OthersKept(old(table.users), table.users, s)
    ensures out ==> s !in table.users
  {
    RemainingAt(table.k, table.rank, read, table.users, s);
    assert Right(table.k, table.rank, table.users, table.curr, table.attr, s);
    var str := table.users[s].str;
    if (!Evaluated(s) || table.attr[s].visible == NO) && !unsaved {
      DropSetting(table, read, s);
    }
    out := false;
    if IsString(s) {
      out := CheckSetting(table, read, s, str);
    }
  }

  // Up to the first string or number that is withdrawn; for that one only its
  // own value is dropped from the cache. If there is none, every value is what
  // the settings read determine, and the cache is right.
  method Load(table: Table, read: Users, syms: seq<Sym>, unsaved: bool) returns (withdrawn: Option<Sym>)
    requires Acyclic(table.k, table.rank)
    requires forall s :: s in read && IsString(s) ==> NUL !in read[s].str
    requires forall i, j :: 0 <= i < j < |syms| ==> syms[i] != syms[j]
    modifies table
    ensures withdrawn.None? <==> NoneWithdrawn(table.k, table.rank, read, syms, |syms|)
    ensures withdrawn.None? ==> table.Inv({}) && Remaining(table.k, table.rank, read, table.users)
    ensures withdrawn.Some? ==>
              var s := withdrawn.value;
              s in syms && s in read && s !in table.users && Withdrawn(table.k, s, Some(read[s]), Full(table.k, table.rank, read))
  {
    table.users := read;
    table.ClearAllValid();
    CalcAll(table, syms);
    AllRemain(table.k, table.rank, read);
    var i: nat := 0;
    while i < |syms|
      invariant i <= |syms| && table.Inv({}) && Remaining(table.k, table.rank, read, table.users)
      invariant forall s :: s in syms ==> s in table.valid
      invariant NoneWithdrawn(table.k, table.rank, read, syms, i)
      invariant forall j :: i <= j < |syms| && syms[j] in read ==> syms[j] in table.users
    {
      var s := syms[i];
      NoneWithdrawnStep(table.k, table.rank, read, syms, i);
      if s in table.users {
        RemainingAt(table.k, table.rank, read, table.users, s);
        var out := CheckOne(table, read, s, unsaved);
        if out {
          return Some(s);
        }
      }
      i := i + 1;
    }
    return None;
  }

  // conf_read: the settings of the text, loaded. Of the text of a minimal
  // configuration in which nothing is lost, with plain numbers, nothing is
  // withdrawn, and every value is that of the original configuration.
  method Read(table: Table, names: Names, text: string, syms: seq<Sym>, unsaved: bool, ghost users: Users, ghost minimal: Users)
    returns (withdrawn: Option<Sym>)
    requires Acyclic(table.k, table.rank) && NUL !in text
    requires forall i, j :: 0 <= i < j < |syms| ==> syms[i] != syms[j]
    modifies table
    ensures withdrawn.None? <==> NoneWithdrawn(table.k, table.rank, ReadText(names, map[], text), syms, |syms|)
    ensures withdrawn.None? ==>
              table.Inv({}) && Remaining(table.k, table.rank, ReadText(names, map[], text), table.users)
    ensures
      && Exactly(table.k, table.rank, users, minimal) && TextOf(table.k, names, minimal, text)
      && AllWritable(table.k, minimal) && NothingLost(table.k, table.rank, users) ==>
        withdrawn.None? && SameDens(table.k, table.rank, users, table.users)
  {
    var read := ReadSimple(names, text);
    ReadAddsNoChars(names, map[], text, NUL);
    withdrawn := Load(table, read, syms, unsaved);
    TextLoads(table.k, table.rank, users, names, minimal, text, syms);
    if withdrawn.None? {
      SameDensTransitive(table.k, table.rank, users, read, table.users);
    }
  }
}
