// A boolean choice that is not optional: which of its members is y.
module Choices {
  import opened Tristate
  import opened Exprs
  import opened MenuDependencies
  import opened MenuConditions
  import opened Symbols

  datatype ChoiceDefault = ChoiceDefault(member: Sym, cond: Option<Expr>)

  // The choice, its members in order, and the finalised conditions of its
  // prompt, its defaults and its members' prompts.
  datatype Choice = Choice(sym: Sym, members: seq<Sym>, prompt: Option<Expr>,
                           defaults: seq<ChoiceDefault>, prompts: map<Sym, seq<Option<Expr>>>)

  // What expressions see of all symbols when the choice is on, and when not.
  type Views = bool -> Env

  ghost predicate DiffersOnlyIn(views: Views, s: Sym) {
    && (forall t: Sym :: t != s ==> views(true).tri(t) == views(false).tri(t))
    && (forall a: Sym, b: Sym :: a != s && b != s ==> views(true).cmp(a, b) == views(false).cmp(a, b))
  }

  // The choice is a bound on the condition: if the choice is n, so is it.
  ghost predicate Bounded(cond: Option<Expr>, choice: Sym) {
    forall env: Env :: WellTyped(env) && env.tri(choice) == NO ==> EvalCond(cond, env) == NO
  }

  ghost predicate WellFormed(d: Choice, views: Views) {
    && d.sym.Type().Boolean? && !MentionsCond(d.prompt, d.sym)
    && (forall i, j :: 0 <= i < j < |d.members| ==> d.members[i] != d.members[j])
    && (forall m :: m in d.members ==>
          m != d.sym && m.Type().Boolean? && m in d.prompts && forall c :: c in d.prompts[m] ==> Bounded(c, d.sym))
    && (forall x :: x in d.defaults ==> x.member in d.members && !MentionsCond(x.cond, d.sym))
    && WellTyped(views(true)) && WellTyped(views(false)) && DiffersOnlyIn(views, d.sym)
    && views(true).tri(d.sym) == YES && views(false).tri(d.sym) == NO
  }

  // The conditions a choice's children inherit from the choice are bounded by
  // it: the dependency of a child, and with that the conditions of its prompts.
  lemma ChildIsBounded(choice: Sym, modules: Sym, own: Option<Expr>, base: Option<Expr>, written: Property, prompt: Property,
                       child: Option<Sym>)
    requires Inherits(Some(Var(choice)), own, modules, base)
    requires PropertyInherited(child, modules, base, written, prompt)
    ensures Bounded(base, choice) && Bounded(prompt.visible, choice)
  {
    forall env: Env | WellTyped(env) && env.tri(choice) == NO
      ensures EvalCond(base, env) == NO && EvalCond(prompt.visible, env) == NO
    {
      assert EvalCond(base, env) <= EvalCond(Some(Var(choice)), env);
      assert EvalCond(prompt.visible, env) <= EvalCond(base, env);
    }
  }

  // ---- What the choice and its members should be ----

  predicate Mode(d: Choice, views: Views) {
    EvalCond(d.prompt, views(false)) != NO
  }

  predicate Visible(d: Choice, views: Views, m: Sym, on: bool) {
    m in d.prompts && AnyPrompt(d.prompts[m], views(on)) != NO
  }

  function FirstVisible(d: Choice, views: Views, ms: seq<Sym>): Option<Sym> {
    if ms == [] then None else if Visible(d, views, ms[0], true) then Some(ms[0]) else FirstVisible(d, views, ms[1..])
  }

  function FirstUsable(d: Choice, views: Views, xs: seq<ChoiceDefault>): Option<Sym> {
    if xs == [] then None
    else if EvalCond(xs[0].cond, views(true)) != NO && Visible(d, views, xs[0].member, true) then Some(xs[0].member)
    else FirstUsable(d, views, xs[1..])
  }

  // sym_choice_default
  function DefaultMember(d: Choice, views: Views): Option<Sym> {
    var x := FirstUsable(d, views, d.defaults);
    if x.Some? then x else FirstVisible(d, views, d.members)
  }

  // The member the user has picked if it is visible, else the default.
  function Chosen(d: Choice, views: Views, user: Option<Sym>): Option<Sym> {
    if !Mode(d, views) then None
    else if user.Some? && Visible(d, views, user.value, true) then user
    else DefaultMember(d, views)
  }

  predicate On(d: Choice, views: Views, user: Option<Sym>) {
    Chosen(d, views, user).Some?
  }

  function MemberValue(d: Choice, views: Views, user: Option<Sym>, m: Sym): Tri {
    FromBool(Visible(d, views, m, On(d, views, user)) && Chosen(d, views, user) == Some(m))
  }

  // ---- Laws ----

  lemma {:induction false} FirstVisibleIs(d: Choice, views: Views, ms: seq<Sym>)
    ensures var r := FirstVisible(d, views, ms);
            if r.Some? then r.value in ms && Visible(d, views, r.value, true)
            else forall m :: m in ms ==> !Visible(d, views, m, true)
  {
    if ms != [] {
      FirstVisibleIs(d, views, ms[1..]);
      assert ms == [ms[0]] + ms[1..];
    }
  }

  lemma {:induction false} FirstUsableIs(d: Choice, views: Views, xs: seq<ChoiceDefault>)
    ensures var r := FirstUsable(d, views, xs);
            r.Some? ==> Visible(d, views, r.value, true) && exists x :: x in xs && x.member == r.value
  {
    if xs != [] {
      FirstUsableIs(d, views, xs[1..]);
      assert xs == [xs[0]] + xs[1..];
    }
  }

  lemma ChosenIs(d: Choice, views: Views, user: Option<Sym>)
    requires WellFormed(d, views) && (user.Some? ==> user.value in d.members)
    ensures var r := Chosen(d, views, user);
            && (r.Some? ==> r.value in d.members && Visible(d, views, r.value, true))
            && (r.Some? <==> Mode(d, views) && exists m :: m in d.members && Visible(d, views, m, true))
  {
    FirstVisibleIs(d, views, d.members);
    FirstUsableIs(d, views, d.defaults);
  }

  lemma {:induction false} AnyPromptBounded(ps: seq<Option<Expr>>, s: Sym, env: Env)
    requires forall c :: c in ps ==> Bounded(c, s)
    requires WellTyped(env) && env.tri(s) == NO
    ensures AnyPrompt(ps, env) == NO
  {
    if ps != [] {
      assert ps[0] in ps;
      AnyPromptBounded(ps[1..], s, env);
    }
  }

  lemma NoneVisibleWhenOff(d: Choice, views: Views, m: Sym)
    requires WellFormed(d, views) && m in d.members
    ensures !Visible(d, views, m, false)
  {
    AnyPromptBounded(d.prompts[m], d.sym, views(false));
  }

  // Exactly one member is y if the choice is visible and has a visible member;
  // else all are n.
  lemma ExactlyOne(d: Choice, views: Views, user: Option<Sym>)
    requires WellFormed(d, views) && (user.Some? ==> user.value in d.members)
    ensures Mode(d, views) && (exists m :: m in d.members && Visible(d, views, m, true)) <==>
            exists m :: m in d.members && MemberValue(d, views, user, m) == YES
    ensures forall m, n :: m in d.members && n in d.members && MemberValue(d, views, user, m) != NO ==>
                             (MemberValue(d, views, user, n) != NO ==> m == n)
  {
    ChosenIs(d, views, user);
    var r := Chosen(d, views, user);
    if r.Some? {
      assert MemberValue(d, views, user, r.value) == YES;
    }
  }

  // The member picked by the user is that one.
  lemma PickedIsChosen(d: Choice, views: Views, m: Sym, n: Sym)
    requires WellFormed(d, views) && m in d.members && n in d.members
    ensures MemberValue(d, views, Some(m), n) == YES <==>
            (if Visible(d, views, m, true) then Mode(d, views) && n == m else MemberValue(d, views, None, n) == YES)
  {
  }

  // ---- Which member it is ----

  // A default that can be taken: its condition is not n and its member is
  // visible.
  ghost predicate Usable(d: Choice, views: Views, i: nat) {
    i < |d.defaults| && EvalCond(d.defaults[i].cond, views(true)) != NO && Visible(d, views, d.defaults[i].member, true)
  }

  ghost predicate FirstUsableAt(d: Choice, views: Views, i: nat) {
    Usable(d, views, i) && forall j: nat :: j < i ==> !Usable(d, views, j)
  }

  ghost predicate FirstVisibleAt(d: Choice, views: Views, i: nat) {
    && i < |d.members| && Visible(d, views, d.members[i], true)
    && forall j :: 0 <= j < i ==> !Visible(d, views, d.members[j], true)
  }

  lemma {:induction false} UsableFound(d: Choice, views: Views, k: nat, i: nat)
    requires k <= i && Usable(d, views, i) && forall j: nat :: k <= j < i ==> !Usable(d, views, j)
    ensures FirstUsable(d, views, d.defaults[k..]) == Some(d.defaults[i].member)
    decreases i - k
  {
    var xs := d.defaults[k..];
    assert xs[0] == d.defaults[k] && xs[1..] == d.defaults[k + 1..];
    if k < i {
      assert !Usable(d, views, k);
      UsableFound(d, views, k + 1, i);
    }
  }

  lemma {:induction false} NoneUsable(d: Choice, views: Views, k: nat)
    requires k <= |d.defaults| && forall j: nat :: !Usable(d, views, j)
    ensures FirstUsable(d, views, d.defaults[k..]) == None
    decreases |d.defaults| - k
  {
    if k < |d.defaults| {
      assert d.defaults[k..][1..] == d.defaults[k + 1..];
      assert !Usable(d, views, k);
      NoneUsable(d, views, k + 1);
    }
  }

  lemma {:induction false} VisibleFound(d: Choice, views: Views, k: nat, i: nat)
    requires k <= i < |d.members| && Visible(d, views, d.members[i], true)
    requires forall j :: k <= j < i ==> !Visible(d, views, d.members[j], true)
    ensures FirstVisible(d, views, d.members[k..]) == Some(d.members[i])
    decreases i - k
  {
    var ms := d.members[k..];
    assert ms[0] == d.members[k] && ms[1..] == d.members[k + 1..];
    if k < i {
      VisibleFound(d, views, k + 1, i);
    }
  }

  // Without a visible pick of the user, the member of the first default that
  // can be taken is y; ...
  lemma DefaultIsChosen(d: Choice, views: Views, user: Option<Sym>, i: nat)
    requires WellFormed(d, views) && Mode(d, views) && (user.Some? ==> !Visible(d, views, user.value, true))
    requires FirstUsableAt(d, views, i)
    ensures MemberValue(d, views, user, d.defaults[i].member) == YES
  {
    assert d.defaults[0..] == d.defaults;
    UsableFound(d, views, 0, i);
  }

  // ... if none can be taken, the first visible member is.
  lemma FirstVisibleIsChosen(d: Choice, views: Views, user: Option<Sym>, i: nat)
    requires WellFormed(d, views) && Mode(d, views) && (user.Some? ==> !Visible(d, views, user.value, true))
    requires (forall j: nat :: !Usable(d, views, j)) && FirstVisibleAt(d, views, i)
    ensures MemberValue(d, views, user, d.members[i]) == YES
  {
    assert d.defaults[0..] == d.defaults && d.members[0..] == d.members;
    NoneUsable(d, views, 0);
    VisibleFound(d, views, 0, i);
  }

  // ---- The lazy evaluation ----

  // A bool symbol is y where m is calculated.
  function OfBool(t: Tri): Tri {
    if t == MOD then YES else t
  }

  function RightVisibility(d: Choice, views: Views, user: Option<Sym>, m: Sym): Tri {
    FromBool(Visible(d, views, m, On(d, views, user)))
  }

  // Of the first n members, those that are visible have been set by the user.
  ghost predicate SetUpTo(d: Choice, views: Views, userSet: set<Sym>, n: nat) {
    n <= |d.members| && forall j :: 0 <= j < n && Visible(d, views, d.members[j], true) ==> d.members[j] in userSet
  }

  ghost predicate AllSet(d: Choice, views: Views, userSet: set<Sym>) {
    SetUpTo(d, views, userSet, |d.members|)
  }

  lemma SetStep(d: Choice, views: Views, userSet: set<Sym>, i: nat)
    requires i < |d.members|
    ensures SetUpTo(d, views, userSet, i + 1) <==>
            SetUpTo(d, views, userSet, i) && (Visible(d, views, d.members[i], true) ==> d.members[i] in userSet)
  {
  }

  // Entries are as they were or right.
  ghost predicate Kept(d: Choice, views: Views, user: Option<Sym>, v: map<Sym, Tri>, w: map<Sym, Tri>) {
    forall x :: x in v ==> x in w && (w[x] == v[x] || w[x] == RightVisibility(d, views, user, x))
  }

  lemma Independent(d: Choice, views: Views, c: Option<Expr>)
    requires WellFormed(d, views)
    ensures MentionsCond(c, d.sym) || EvalCond(c, views(true)) == EvalCond(c, views(false))
    ensures Bounded(c, d.sym) && !MentionsCond(c, d.sym) ==> EvalCond(c, views(true)) == NO
  {
    if c.Some? && !Contains(c.value, d.sym) {
      ContainsIsSupport(c.value, views(true), views(false));
    }
  }

  // The visibilities seen while the choice is on are right even if no member
  // is visible and the choice is turned off.
  lemma AllSeen(d: Choice, views: Views, user: Option<Sym>, v: map<Sym, Tri>, w: map<Sym, Tri>)
    requires WellFormed(d, views) && (user.Some? ==> user.value in d.members) && Mode(d, views)
    requires forall j :: 0 <= j < |d.members| ==>
               d.members[j] in w && w[d.members[j]] == FromBool(Visible(d, views, d.members[j], true))
    requires forall x :: x in v && x !in d.members ==> x in w && w[x] == v[x]
    ensures Kept(d, views, user, v, w)
    ensures forall m :: m in d.members ==> m in w && w[m] == FromBool(Visible(d, views, m, true))
  {
    ChosenIs(d, views, user);
    forall m | m in d.members ensures w[m] == RightVisibility(d, views, user, m) {
      NoneVisibleWhenOff(d, views, m);
    }
  }

  // Picking the member that is y already changes nothing; picking a visible
  // one makes it y.
  lemma PickedSettles(d: Choice, views: Views, user: Option<Sym>, m: Sym)
    requires WellFormed(d, views) && m in d.members && (user.Some? ==> user.value in d.members)
    requires RightVisibility(d, views, user, m) == YES
    ensures Chosen(d, views, Some(m)) == Some(m) && On(d, views, user)
    ensures forall n :: n in d.members ==> MemberValue(d, views, Some(m), n) == FromBool(n == m)
  {
    NoneVisibleWhenOff(d, views, m);
  }

  class Group {
    const d: Choice
    const views: Views
    // The choice symbol: its value, its chosen member and the user's settings.
    var choiceValid: bool
    var tri: Tri
    var chosen: Option<Sym>
    var userMember: Option<Sym>
    var userTri: Tri
    var hasUser: bool
    // The members.
    var valid: set<Sym>
    var curr: map<Sym, Tri>
    var visible: map<Sym, Tri>
    var userSet: set<Sym>

    constructor (d: Choice, views: Views)
      requires WellFormed(d, views)
      ensures this.d == d && this.views == views && Inv({}) && userMember == None
    {
      this.d, this.views := d, views;
      choiceValid, tri, chosen, userMember, userTri, hasUser := false, NO, None, None, NO, false;
      valid, curr, visible, userSet := {}, map[], map[], {};
    }

    ghost predicate Base()
      reads this
    {
      WellFormed(d, views) && (userMember.Some? ==> userMember.value in d.members)
    }

    ghost predicate ChoiceRight()
      reads this
    {
      choiceValid ==> chosen == Chosen(d, views, userMember) && tri == FromBool(On(d, views, userMember))
    }

    ghost predicate MemberRight(m: Sym)
      reads this
    {
      && m in d.members && m in curr && m in visible
      && curr[m] == MemberValue(d, views, userMember, m)
      && visible[m] == RightVisibility(d, views, userMember, m)
    }

    ghost predicate Inv(busy: set<Sym>)
      reads this
    {
      Base() && ChoiceRight() && forall m :: m in valid && m !in busy ==> MemberRight(m)
    }

    // expr_calc_value of a member's condition: if it refers to the choice, the
    // choice is calculated first.
    method EvalPrompt(c: Option<Expr>, ghost on: bool) returns (t: Tri)
      requires Base() && Bounded(c, d.sym)
      requires on == if choiceValid then tri != NO else On(d, views, userMember)
      modifies `choiceValid, `tri, `chosen, `hasUser, `visible
      ensures t == EvalCond(c, views(on)) && (t != NO ==> choiceValid)
      ensures choiceValid ==> (tri != NO) == on
      ensures old(choiceValid) ==>
                choiceValid && tri == old(tri) && chosen == old(chosen) && hasUser == old(hasUser) && visible == old(visible)
      ensures !old(choiceValid) ==> ChoiceRight() && Kept(d, views, userMember, old(visible), visible)
      decreases if choiceValid then 0 else 1, 1
    {
      if MentionsCond(c, d.sym) {
        CalcChoice();
      }
      Independent(d, views, c);
      t := EvalCond(c, views(tri != NO));
    }

    // Is any prompt of the member visible?
    method CalcPrompts(m: Sym, ghost on: bool) returns (t: Tri)
      requires Base() && m in d.members
      requires on == if choiceValid then tri != NO else On(d, views, userMember)
      modifies `choiceValid, `tri, `chosen, `hasUser, `visible
      ensures (t != NO) == Visible(d, views, m, on) && (t != NO ==> choiceValid)
      ensures old(choiceValid) ==>
                choiceValid && tri == old(tri) && chosen == old(chosen) && hasUser == old(hasUser) && visible == old(visible)
      ensures !old(choiceValid) ==> ChoiceRight() && Kept(d, views, userMember, old(visible), visible)
      decreases if choiceValid then 0 else 1, 2
    {
      var ps, i := d.prompts[m], 0;
      t := NO;
      while i < |ps|
        invariant 0 <= i <= |ps| && Max(t, PromptsFrom(ps, i, views(on))) == PromptsFrom(ps, 0, views(on))
        invariant old(choiceValid) ==>
                    choiceValid && tri == old(tri) && chosen == old(chosen) && hasUser == old(hasUser) && visible == old(visible)
        invariant !old(choiceValid) ==> ChoiceRight() && Kept(d, views, userMember, old(visible), visible)
        invariant choiceValid ==> (tri != NO) == on
        invariant t != NO ==> choiceValid
      {
        assert ps[i] in ps;
        var c := EvalPrompt(ps[i], on);
        t := Max(t, c);
        PromptsStep(ps, i, views(on));
        i := i + 1;
      }
      PromptsStep(ps, i, views(on));
    }

    // sym_calc_visibility of a member
    method CalcVisibility(m: Sym)
      requires Base() && m in d.members
      modifies `choiceValid, `tri, `chosen, `hasUser, `visible
      ensures old(choiceValid) ==>
                && choiceValid && tri == old(tri) && chosen == old(chosen) && hasUser == old(hasUser)
                && visible == old(visible)[m := FromBool(Visible(d, views, m, tri != NO))]
      ensures !old(choiceValid) ==>
                && ChoiceRight() && Kept(d, views, userMember, old(visible), visible)
                && m in visible && visible[m] == RightVisibility(d, views, userMember, m)
      ensures visible[m] != NO ==> choiceValid
      decreases if choiceValid then 0 else 1, 3
    {
      var t := CalcPrompts(m, if choiceValid then tri != NO else On(d, views, userMember));
      visible := visible[m := if t != NO then YES else NO];
    }

    method CalcChoice()
      requires Base()
      modifies `choiceValid, `tri, `chosen, `hasUser, `visible
      ensures choiceValid
      ensures old(choiceValid) ==> tri == old(tri) && chosen == old(chosen) && hasUser == old(hasUser) && visible == old(visible)
      ensures !old(choiceValid) ==> ChoiceRight() && Kept(d, views, userMember, old(visible), visible)
      decreases if choiceValid then 0 else 1, 0
    {
      if choiceValid {
        return;
      }
      choiceValid, tri := true, NO;
      var p := EvalCond(d.prompt, views(false));
      var vis := if p != NO then YES else NO;
      // the reverse dependency menu_finalize gives a choice: its prompt && m
      var rev := OfBool(Min(p, MOD));
      var v := Max(if vis != NO && hasUser then Min(userTri, vis) else NO, rev);
      tri, chosen := OfBool(v), None;
      if tri == YES {
        PickMember();
      }
    }

    // sym_calc_choice
    method PickMember()
      requires Base() && choiceValid && tri == YES && Mode(d, views)
      modifies `tri, `chosen, `hasUser, `visible, `choiceValid
      ensures choiceValid && ChoiceRight() && Kept(d, views, userMember, old(visible), visible)
      ensures hasUser == (old(hasUser) && AllSet(d, views, userSet))
      decreases 0, 5
    {
      var flags := SeeMembers();
      AllSeen(d, views, userMember, old(visible), visible);
      hasUser := flags;
      if userMember.Some? && visible[userMember.value] != NO {
        chosen := userMember;
      } else {
        chosen := ChoiceDefault();
        if chosen == None {
          tri := NO;
        }
      }
    }

    // The first loop: are the members seen to be visible all set by the user,
    // and the choice itself?
    method SeeMembers() returns (flags: bool)
      requires Base() && choiceValid && tri == YES
      modifies `tri, `chosen, `hasUser, `visible, `choiceValid
      ensures choiceValid && tri == YES && hasUser == old(hasUser)
      ensures forall j :: 0 <= j < |d.members| ==>
                d.members[j] in visible && visible[d.members[j]] == FromBool(Visible(d, views, d.members[j], true))
      ensures forall x :: x in old(visible) && x !in d.members ==> x in visible && visible[x] == old(visible)[x]
      ensures flags == (hasUser && AllSet(d, views, userSet))
      decreases 0, 4
    {
      var i: nat := 0;
      flags := hasUser;
      while i < |d.members|
        invariant i <= |d.members| && choiceValid && tri == YES && hasUser == old(hasUser)
        invariant flags == (hasUser && SetUpTo(d, views, userSet, i))
        invariant forall j :: 0 <= j < i ==>
                    d.members[j] in visible && visible[d.members[j]] == FromBool(Visible(d, views, d.members[j], true))
        invariant forall x :: x in old(visible) && x !in d.members[..i] ==> x in visible && visible[x] == old(visible)[x]
      {
        var m := d.members[i];
        CalcVisibility(m);
        SetStep(d, views, userSet, i);
        if visible[m] != NO {
          flags := flags && m in userSet;
        }
        i := i + 1;
      }
    }

    method ChoiceDefault() returns (r: Option<Sym>)
      requires Base()
      requires forall m :: m in d.members ==> m in visible && visible[m] == FromBool(Visible(d, views, m, true))
      ensures r == DefaultMember(d, views)
    {
      var i := 0;
      while i < |d.defaults|
        invariant 0 <= i <= |d.defaults| && FirstUsable(d, views, d.defaults[i..]) == FirstUsable(d, views, d.defaults)
      {
        var x := d.defaults[i];
        assert x in d.defaults && d.defaults[i..][1..] == d.defaults[i + 1..];
        if EvalCond(x.cond, views(true)) != NO && visible[x.member] != NO {
          return Some(x.member);
        }
        i := i + 1;
      }
      i := 0;
      while i < |d.members|
        invariant 0 <= i <= |d.members| && FirstVisible(d, views, d.members[i..]) == FirstVisible(d, views, d.members)
      {
        assert d.members[i] in d.members && d.members[i..][1..] == d.members[i + 1..];
        if visible[d.members[i]] != NO {
          return Some(d.members[i]);
        }
        i := i + 1;
      }
      return None;
    }

    // sym_calc_value of a member: in whatever order the members and the choice
    // are calculated, they get the same values.
    method CalcMember(m: Sym) returns (t: Tri)
      requires Inv({}) && m in d.members
      modifies this
      ensures Inv({}) && old(valid) + {m} == valid && userMember == old(userMember)
      ensures t == MemberValue(d, views, userMember, m) == curr[m]
    {
      if m in valid {
        assert MemberRight(m);
        return curr[m];
      }
      valid := valid + {m};
      CalcVisibility(m);
      t := if visible[m] == YES && chosen == Some(m) then YES else NO;
      curr := curr[m := t];
    }

    method ClearAllValid()
      requires Base()
      modifies `valid, `choiceValid
      ensures Inv({}) && valid == {}
    {
      valid, choiceValid := {}, false;
    }

    function SeenVisible(): set<Sym>
      reads this
    {
      set x | x in d.members && x in visible && visible[x] != NO
    }

    // sym_set_tristate_value of a member: only y is accepted as a change, of a
    // visible member, and it makes that member the chosen one.
    method SetMember(m: Sym, val: Tri) returns (ok: bool)
      requires Inv({}) && m in valid && choiceValid
      modifies this
      ensures Inv({})
      ensures ok <==> old(curr[m]) == val || (val == YES && old(visible[m]) == YES)
      ensures !ok ==> userMember == old(userMember)
      ensures ok && val == YES ==>
                forall n :: n in d.members ==> MemberValue(d, views, userMember, n) == FromBool(n == m)
      ensures ok && val != YES ==> userMember == old(userMember)
      // Making a member y counts as a setting of the choice and of all its
      // visible members.
      ensures ok && val == YES ==> userMember == Some(m)
      ensures hasUser == (old(hasUser) || (ok && val == YES))
      ensures userSet == old(userSet) + (if ok then {m} else {}) + (if ok && val == YES then old(SeenVisible()) else {})
    {
      assert MemberRight(m);
      var oldval := curr[m];
      ok := oldval == val || (visible[m] != NO && val != MOD && val == YES);
      if !ok {
        return;
      }
      userSet := userSet + {m};
      if val == YES {
        PickedSettles(d, views, userMember, m);
        forall x | x in valid ensures MemberRight(x) {}
        userMember, hasUser := Some(m), true;
        userSet := userSet + SeenVisible();
        if oldval != val {
          ClearAllValid();
        }
      }
    }
  }
}
