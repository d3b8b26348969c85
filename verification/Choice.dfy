// Choice groups: sym_calc_choice and the choice branches of sym_calc_value and
// sym_set_tristate_value.  The members have one prompt each and no defaults.
module Choice {
  import opened Wrappers
  import opened Expr
  import opened Config

  /** A choice value; guard is its dependency beside the one on the choice. */
  datatype Member = Member(sym: Symbol, guard: Dep)

  datatype Default = Default(cond: Dep, member: nat)

  /** The choice symbol with its prompt, reverse dependency, defaults and values. */
  datatype Group = Group(sym: Symbol, prompt: Dep, rev: Dep, defaults: seq<Default>, members: seq<Member>)

  predicate WellFormed(g: Group) {
    && g.sym.IsTristate() && !g.sym.isConst
    && (forall i :: 0 <= i < |g.members| ==> g.members[i].sym.IsTristate())
    && (forall i :: 0 <= i < |g.defaults| ==> g.defaults[i].member < |g.members|)
  }

  /** SYMBOL_DEF_USER and def[S_DEF_USER].tri */
  datatype UserTri = UserTri(has: bool, tri: Tristate)

  /** picked is def[S_DEF_USER].val of the choice: the value the user chose. */
  datatype Users = Users(choice: UserTri, picked: Option<nat>, members: seq<UserTri>)

  /** The group, modules_val, and the values of the symbols outside the group. */
  datatype Setting = Setting(g: Group, modulesVal: Tristate, others: Valuation)

  ghost predicate Fits(w: Setting, u: Users) {
    && WellFormed(w.g) && Sane(w.others)
    && |u.members| == |w.g.members|
    && (u.picked.Some? ==> u.picked.value < |w.g.members|)
  }

  // ---------------------------------------------------------------- the meaning

  /** The prompt condition menu_finalize leaves: the choice && guard, and for a boolean
      value of a tristate choice also choice=y. */
  function Condition(g: Group, m: Member): Expr {
    var inherited := AllocBin(And, Some(Sym(g.sym)), m.guard).value;
    if g.sym.typ == Tri && m.sym.typ != Tri then Bin(And, Comp(true, g.sym, SYM_YES), inherited) else inherited
  }

  /** The values of all symbols a condition may read, the choice being t. */
  function With(w: Setting, t: Tristate): Valuation {
    (s: Symbol) => if s == w.g.sym then Value("n", t) else w.others(s)
  }

  function MemberVisible(w: Setting, i: nat, t: Tristate): Tristate
    requires i < |w.g.members|
  {
    Promote(w.g.members[i].sym, w.modulesVal, Eval(Condition(w.g, w.g.members[i]), With(w, t)))
  }

  function ChoiceVisible(w: Setting): Tristate {
    Promote(w.g.sym, w.modulesVal, EvalDep(w.g.prompt, w.others))
  }

  function ChoiceFloor(w: Setting): Tristate {
    AsType(w.g.sym, w.modulesVal, if w.g.rev.None? then NO else EvalDep(w.g.rev, w.others))
  }

  /** The choice's value before a member is picked */
  function FirstTri(w: Setting, u: Users): Tristate {
    var t := if ChoiceVisible(w) != NO && u.choice.has then Ap(And, u.choice.tri, ChoiceVisible(w)) else NO;
    AsType(w.g.sym, w.modulesVal, Ap(Or, t, ChoiceFloor(w)))
  }

  function FirstMember(w: Setting, i: nat): (r: Option<nat>)
    requires i <= |w.g.members|
    ensures r.Some? ==> r.value < |w.g.members|
    decreases |w.g.members| - i
  {
    if i == |w.g.members| then None
    else if MemberVisible(w, i, YES) != NO then Some(i)
    else FirstMember(w, i + 1)
  }

  function FirstDefault(w: Setting, k: nat): (r: Option<nat>)
    requires WellFormed(w.g) && k <= |w.g.defaults|
    ensures r.Some? ==> r.value < |w.g.members|
    decreases |w.g.defaults| - k
  {
    if k == |w.g.defaults| then FirstMember(w, 0)
    else
      var d := w.g.defaults[k];
      if EvalDep(d.cond, w.others) != NO && MemberVisible(w, d.member, YES) != NO then Some(d.member)
      else FirstDefault(w, k + 1)
  }

  /** The user's choice if visible, else the first visible default, else the first visible value */
  function Pick(w: Setting, u: Users): (r: Option<nat>)
    requires WellFormed(w.g) && (u.picked.Some? ==> u.picked.value < |w.g.members|)
    ensures r.Some? ==> r.value < |w.g.members|
  {
    if u.picked.Some? && MemberVisible(w, u.picked.value, YES) != NO then u.picked else FirstDefault(w, 0)
  }

  /** The value of the choice and the member it holds. */
  datatype Outcome = Outcome(tri: Tristate, sel: Option<nat>)

  function ChoiceOf(w: Setting, u: Users): (r: Outcome)
    requires WellFormed(w.g) && (u.picked.Some? ==> u.picked.value < |w.g.members|)
  {
    var t := FirstTri(w, u);
    if t != YES then Outcome(t, None)
    else if Pick(w, u).None? then Outcome(NO, None)
    else Outcome(YES, Pick(w, u))
  }

  /** The value of member i under this outcome of the choice. */
  function ValueUnder(w: Setting, u: Users, o: Outcome, i: nat): Tristate
    requires i < |w.g.members| && |u.members| == |w.g.members|
  {
    var vis := MemberVisible(w, i, o.tri);
    if vis == YES then (if o.sel == Some(i) then YES else NO)
    else AsType(w.g.members[i].sym, w.modulesVal,
                if vis != NO && u.members[i].has then Ap(And, u.members[i].tri, vis) else NO)
  }

  ghost function MemberOf(w: Setting, u: Users, i: nat): Tristate
    requires Fits(w, u) && i < |w.g.members|
  {
    ValueUnder(w, u, ChoiceOf(w, u), i)
  }

  // ------------------------------------------------------------------ exclusion

  lemma {:induction false} FirstMemberVisible(w: Setting, i: nat)
    requires i <= |w.g.members|
    ensures FirstMember(w, i).None? <==> forall j :: i <= j < |w.g.members| ==> MemberVisible(w, j, YES) == NO
    ensures FirstMember(w, i).Some? ==> MemberVisible(w, FirstMember(w, i).value, YES) != NO
    decreases |w.g.members| - i
  {
    if i < |w.g.members| {
      FirstMemberVisible(w, i + 1);
    }
  }

  lemma {:induction false} FirstDefaultVisible(w: Setting, k: nat)
    requires WellFormed(w.g) && k <= |w.g.defaults|
    ensures FirstDefault(w, k).None? <==> forall j :: 0 <= j < |w.g.members| ==> MemberVisible(w, j, YES) == NO
    ensures FirstDefault(w, k).Some? ==> MemberVisible(w, FirstDefault(w, k).value, YES) != NO
    decreases |w.g.defaults| - k
  {
    FirstMemberVisible(w, 0);
    if k < |w.g.defaults| {
      FirstDefaultVisible(w, k + 1);
    }
  }

  /** The choice is y exactly when it would be y by itself and some value is visible then; it
      holds a visible value exactly when it is y. */
  lemma ChoiceHoldsVisible(w: Setting, u: Users)
    requires Fits(w, u)
    ensures var o := ChoiceOf(w, u);
            && (o.tri == YES <==> o.sel.Some?)
            && (o.tri == YES <==> FirstTri(w, u) == YES
                                  && exists j :: 0 <= j < |w.g.members| && MemberVisible(w, j, YES) != NO)
            && (o.sel.Some? ==> o.sel.value < |w.g.members| && MemberVisible(w, o.sel.value, YES) != NO)
  {
    FirstDefaultVisible(w, 0);
  }

  predicate Shown(w: Setting, i: nat) {
    i < |w.g.members| && MemberVisible(w, i, YES) != NO
  }

  /** The k-th default is switched on and its member can be shown. */
  predicate DefaultShows(w: Setting, k: nat) {
    k < |w.g.defaults| && EvalDep(w.g.defaults[k].cond, w.others) != NO && Shown(w, w.g.defaults[k].member)
  }

  lemma {:induction false} FirstMemberExact(w: Setting, i: nat, j: nat)
    requires i <= j && Shown(w, j) && forall l :: i <= l < j ==> !Shown(w, l)
    ensures FirstMember(w, i) == Some(j)
    decreases j - i
  {
    if i < j {
      assert !Shown(w, i);
      FirstMemberExact(w, i + 1, j);
    }
  }

  lemma {:induction false} FirstDefaultExact(w: Setting, i: nat, k: nat)
    requires WellFormed(w.g) && i <= k <= |w.g.defaults| && forall l :: i <= l < k ==> !DefaultShows(w, l)
    ensures k == |w.g.defaults| ==> FirstDefault(w, i) == FirstMember(w, 0)
    ensures DefaultShows(w, k) ==> FirstDefault(w, i) == Some(w.g.defaults[k].member)
    decreases k - i
  {
    if i < k {
      assert !DefaultShows(w, i);
      FirstDefaultExact(w, i + 1, k);
    }
  }

  /** A choice that is y holds the member that the user picked, if that is visible. */
  lemma ChoiceByUser(w: Setting, u: Users, i: nat)
    requires Fits(w, u) && FirstTri(w, u) == YES && u.picked == Some(i) && Shown(w, i)
    ensures ChoiceOf(w, u) == Outcome(YES, Some(i))
  {
  }

  /** Otherwise the member of the first default that is switched on and whose member is visible. */
  lemma ChoiceByDefault(w: Setting, u: Users, k: nat)
    requires Fits(w, u) && FirstTri(w, u) == YES && (u.picked.Some? ==> !Shown(w, u.picked.value))
    requires DefaultShows(w, k) && forall l :: 0 <= l < k ==> !DefaultShows(w, l)
    ensures ChoiceOf(w, u) == Outcome(YES, Some(w.g.defaults[k].member))
  {
    FirstDefaultExact(w, 0, k);
  }

  /** And without such a default the first visible member. */
  lemma ChoiceByOrder(w: Setting, u: Users, i: nat)
    requires Fits(w, u) && FirstTri(w, u) == YES && (u.picked.Some? ==> !Shown(w, u.picked.value))
    requires forall l :: 0 <= l < |w.g.defaults| ==> !DefaultShows(w, l)
    requires Shown(w, i) && forall l :: 0 <= l < i ==> !Shown(w, l)
    ensures ChoiceOf(w, u) == Outcome(YES, Some(i))
  {
    FirstDefaultExact(w, 0, |w.g.defaults|);
    FirstMemberExact(w, 0, i);
  }

  /** A member shows exactly if its own dependency holds and the choice is not n; but the boolean
      members of a tristate choice only if that is y. */
  lemma MemberShows(w: Setting, i: nat, t: Tristate)
    requires WellFormed(w.g) && Sane(w.others) && i < |w.g.members|
    ensures var m := w.g.members[i];
            MemberVisible(w, i, t) != NO <==>
            EvalDep(m.guard, With(w, t)) != NO && (if w.g.sym.typ == Tri && m.sym.typ != Tri then t == YES else t != NO)
  {
    var v, m := With(w, t), w.g.members[i];
    assert StringValue(v, w.g.sym) == TriString(t) && StringValue(v, SYM_YES) == "y";
    assert TriString(t) == "y" <==> t == YES by {
      assert "n"[0] != "y"[0] && "m"[0] != "y"[0];
    }
    var inherited := AllocBin(And, Some(Sym(w.g.sym)), m.guard).value;
    assert Eval(inherited, v) == Ap(And, t, EvalDep(m.guard, v));
    var e := Condition(w.g, m);
    if w.g.sym.typ == Tri && m.sym.typ != Tri {
      assert Eval(e, v) == Ap(And, if t == YES then YES else NO, Eval(inherited, v));
    } else {
      assert e == inherited;
    }
  }

  /** A value is y exactly when the choice holds it and it is visible as y. */
  lemma MemberYes(w: Setting, u: Users, i: nat)
    requires Fits(w, u) && i < |w.g.members|
    ensures MemberOf(w, u, i) == YES <==>
            ChoiceOf(w, u).sel == Some(i) && MemberVisible(w, i, ChoiceOf(w, u).tri) == YES
  {
  }

  /** Whatever outcome the choice is taken to have: at most one value is y, and one is exactly if
      the selected value's visibility is y. */
  lemma ExclusionUnder(w: Setting, u: Users, o: Outcome)
    requires Fits(w, u)
    ensures forall i, j :: 0 <= i < j < |w.g.members| ==>
              !(ValueUnder(w, u, o, i) == YES && ValueUnder(w, u, o, j) == YES)
    ensures (exists i :: 0 <= i < |w.g.members| && ValueUnder(w, u, o, i) == YES) <==>
            o.sel.Some? && o.sel.value < |w.g.members| && MemberVisible(w, o.sel.value, o.tri) == YES
  {
    assert o.sel.Some? && o.sel.value < |w.g.members| && MemberVisible(w, o.sel.value, o.tri) == YES ==>
        ValueUnder(w, u, o, o.sel.value) == YES;
  }

  /** At most one value is y; exactly one, if the selected value's visibility is y. */
  lemma ChoiceExclusion(w: Setting, u: Users)
    requires Fits(w, u)
    ensures forall i, j :: 0 <= i < j < |w.g.members| ==> !(MemberOf(w, u, i) == YES && MemberOf(w, u, j) == YES)
    ensures (exists i :: 0 <= i < |w.g.members| && MemberOf(w, u, i) == YES) <==>
            ChoiceOf(w, u).sel.Some? && MemberVisible(w, ChoiceOf(w, u).sel.value, YES) == YES
  {
    var o := ChoiceOf(w, u);
    ChoiceHoldsVisible(w, u);
    ExclusionUnder(w, u, o);
    assert forall i :: 0 <= i < |w.g.members| ==> MemberOf(w, u, i) == ValueUnder(w, u, o, i);
  }

  /** In a choice that is n, no value is visible. */
  lemma NoneVisible(w: Setting, i: nat)
    requires i < |w.g.members|
    ensures MemberVisible(w, i, NO) == NO
  {
    var v := With(w, NO);
    assert Eval(Condition(w.g, w.g.members[i]), v) <= Eval(Sym(w.g.sym), v);
  }

  /** A value is visible as y only in a choice that is y. */
  lemma VisibleYesNeedsChoice(w: Setting, u: Users, i: nat)
    requires Fits(w, u) && i < |w.g.members|
    requires MemberVisible(w, i, ChoiceOf(w, u).tri) == YES
    ensures ChoiceOf(w, u).tri == YES
  {
    var t, m := ChoiceOf(w, u).tri, w.g.members[i];
    var v := With(w, t);
    assert StringValue(v, w.g.sym) == TriString(t) && StringValue(v, SYM_YES) == "y";
    assert TriString(t) == "y" <==> t == YES by {
      assert "n"[0] != "y"[0] && "m"[0] != "y"[0];
    }
    assert Eval(Condition(w.g, m), v) <= t;
  }

  // ------------------------------------------------------- setting user values

  /** A member without a user value has def.tri n, as conf_read_simple and the static initial
      values leave it.  Of the choice itself this is not true. */
  predicate Quiet(u: Users) {
    forall i :: 0 <= i < |u.members| ==> u.members[i].has || u.members[i].tri == NO
  }

  /** sym_set_tristate_value on member i; visible are the visible fields at that time. */
  function SetUsers(u: Users, i: nat, val: Tristate, visible: seq<Tristate>): (r: Users)
    requires i < |u.members| == |visible|
    ensures |r.members| == |u.members|
  {
    var ms := u.members[i := UserTri(true, val)];
    if val != YES then u.(members := ms)
    else Users(u.choice.(has := true), Some(i),
               seq(|ms|, k requires 0 <= k < |ms| => if visible[k] != NO then UserTri(true, ms[k].tri) else ms[k]))
  }

  /** sym_tristate_within_range for member i, visible as vis */
  predicate MemberInRange(w: Setting, i: nat, vis: Tristate, val: Tristate)
    requires i < |w.g.members|
  {
    && vis != NO
    && !((w.modulesVal == NO || w.g.members[i].sym.typ == Boolean || vis == YES) && val == MOD)
    && (if vis == YES then val == YES else val <= vis)
  }

  /** Setting the user's flag on the choice cannot take away a y that the choice has without it. */
  lemma FlagKeepsYes(w: Setting, u: Users, u': Users)
    requires Fits(w, u) && u'.choice.tri == u.choice.tri
    ensures u'.choice == u.choice ==> FirstTri(w, u') == FirstTri(w, u)
    ensures FirstTri(w, u) == YES && u'.choice.has ==> FirstTri(w, u') == YES
  {
  }

  /** An accepted value is exactly the value the member has from then on. */
  lemma SetMemberExact(w: Setting, u: Users, i: nat, val: Tristate, visible: seq<Tristate>)
    requires Fits(w, u) && Quiet(u) && i < |w.g.members| == |visible|
    requires MemberOf(w, u, i) == val || MemberInRange(w, i, MemberVisible(w, i, ChoiceOf(w, u).tri), val)
    ensures var u' := SetUsers(u, i, val, visible);
            && Fits(w, u') && Quiet(u') && MemberOf(w, u', i) == val
            && (val == YES ==> ChoiceOf(w, u') == Outcome(YES, Some(i)))
  {
    var u' := SetUsers(u, i, val, visible);
    FlagKeepsYes(w, u, u');
    if val == YES {
      MemberYes(w, u, i);
      VisibleYesNeedsChoice(w, u, i);
      ChoiceHoldsVisible(w, u);
    }
  }

  /** Of the values a member does not have, those are accepted that it then has; unless setting it to
      y makes the choice itself more than it was, by setting the choice's flag too. */
  lemma MemberInRangeExact(w: Setting, u: Users, i: nat, val: Tristate, visible: seq<Tristate>)
    requires Fits(w, u) && Quiet(u) && i < |w.g.members| == |visible| && MemberOf(w, u, i) != val
    requires FirstTri(w, SetUsers(u, i, val, visible)) == FirstTri(w, u)
    ensures MemberInRange(w, i, MemberVisible(w, i, ChoiceOf(w, u).tri), val)
            <==> MemberOf(w, SetUsers(u, i, val, visible), i) == val
  {
    var u' := SetUsers(u, i, val, visible);
    var o := ChoiceOf(w, u);
    if MemberInRange(w, i, MemberVisible(w, i, o.tri), val) {
      SetMemberExact(w, u, i, val, visible);
    } else {
      ChoiceHoldsVisible(w, u);
      ChoiceHoldsVisible(w, u');
    }
  }

  /** Setting a member to the value it has changes no value: the cache may be kept. */
  lemma SetMemberSame(w: Setting, u: Users, i: nat, visible: seq<Tristate>, j: nat)
    requires Fits(w, u) && Quiet(u) && i < |w.g.members| == |visible| && j < |w.g.members|
    ensures var u' := SetUsers(u, i, MemberOf(w, u, i), visible);
            Fits(w, u') && ChoiceOf(w, u') == ChoiceOf(w, u) && MemberOf(w, u', j) == MemberOf(w, u, j)
  {
    var val := MemberOf(w, u, i);
    var u' := SetUsers(u, i, val, visible);
    FlagKeepsYes(w, u, u');
    if val == YES {
      MemberYes(w, u, i);
      ChoiceHoldsVisible(w, u);
    }
    SetMemberExact(w, u, i, val, visible);
  }

  function SetChoiceUsers(u: Users, val: Tristate): Users {
    u.(choice := UserTri(true, val))
  }

  /** sym_tristate_within_range for the choice symbol */
  predicate ChoiceInRange(w: Setting, val: Tristate) {
    && ChoiceVisible(w) != NO
    && !(GetType(w.g.sym, w.modulesVal) == Boolean && val == MOD)
    && ChoiceVisible(w) > ChoiceFloor(w)
    && ChoiceFloor(w) <= val <= ChoiceVisible(w)
  }

  /** Of the values of a choice those are accepted that it would then have, before a member is picked;
      and none if its visibility does not exceed its floor. */
  lemma ChoiceInRangeExact(w: Setting, u: Users, val: Tristate)
    requires Fits(w, u)
    ensures ChoiceInRange(w, val) <==>
            ChoiceVisible(w) > ChoiceFloor(w) && FirstTri(w, SetChoiceUsers(u, val)) == val
  {
  }

  /** The user asked for y, but the choice is n for want of a visible value. */
  predicate Emptied(w: Setting, u: Users)
    requires WellFormed(w.g) && (u.picked.Some? ==> u.picked.value < |w.g.members|)
  {
    u.choice.has && u.choice.tri == YES && ChoiceVisible(w) == YES && ChoiceOf(w, u).tri == NO
  }

  /** A value within range is what the choice becomes, but for y without a visible value. */
  lemma SetChoiceExact(w: Setting, u: Users, val: Tristate)
    requires Fits(w, u) && ChoiceInRange(w, val)
    ensures var o := ChoiceOf(w, SetChoiceUsers(u, val));
            o.tri == if val == YES && forall j :: 0 <= j < |w.g.members| ==> MemberVisible(w, j, YES) == NO then NO
                     else val
  {
    ChoiceHoldsVisible(w, SetChoiceUsers(u, val));
  }

  /** Setting the choice to the value it has changes nothing, exactly unless an emptied choice
      that is selected as m is set to n. */
  lemma SetChoiceSame(w: Setting, u: Users)
    requires Fits(w, u)
    ensures var val := ChoiceOf(w, u).tri;
            ChoiceOf(w, SetChoiceUsers(u, val)) == ChoiceOf(w, u) <==> !(Emptied(w, u) && ChoiceFloor(w) == MOD)
  {
    ChoiceHoldsVisible(w, u);
    ChoiceHoldsVisible(w, SetChoiceUsers(u, ChoiceOf(w, u).tri));
  }

  /** Then what the choice is held to be is still its meaning, or n. */
  lemma SetChoiceHeld(w: Setting, u: Users, o: Outcome)
    requires Fits(w, u) && (o == ChoiceOf(w, u) || o == Outcome(NO, None))
    ensures var u' := SetChoiceUsers(u, o.tri);
            && (o == ChoiceOf(w, u') || o == Outcome(NO, None))
            && (o == ChoiceOf(w, u) ==> (o == ChoiceOf(w, u') <==> !(Emptied(w, u) && ChoiceFloor(w) == MOD)))
  {
    ChoiceHoldsVisible(w, u);
    SetChoiceSame(w, u);
  }

  // ---------------------------------------------------- the memoised evaluation

  datatype Request = Set(member: nat, val: Tristate) | SetGroup(val: Tristate) | Change(others: Valuation)

  class ChoiceTable {
    const g: Group
    const modulesVal: Tristate
    var others: Valuation
    var users: Users
    var csValid: bool                // the SYMBOL_VALID flag of the choice
    var csTri: Tristate
    var csSel: Option<nat>
    var csVisible: Tristate
    var csRev: Tristate
    var valid: set<nat>              // the members with SYMBOL_VALID
    var curr: seq<Tristate>
    var visible: seq<Tristate>

    constructor (w: Setting, u: Users)
      requires Fits(w, u) && Quiet(u)
      ensures W() == w && users == u && Valid() && Coherent({})
    {
      g, modulesVal, others, users := w.g, w.modulesVal, w.others, u;
      csValid, csTri, csSel, csVisible, csRev := false, NO, None, NO, NO;
      valid := {};
      curr, visible := seq(|w.g.members|, i => NO), seq(|w.g.members|, i => NO);
    }

    ghost function W(): Setting
      reads this
    {
      Setting(g, modulesVal, others)
    }

    ghost predicate Valid()
      reads this
    {
      && Fits(W(), users) && Quiet(users)
      && |curr| == |visible| == |g.members|
      && (forall i :: i in valid ==> i < |g.members|)
    }

    /** What the choice means now */
    ghost function Meant(): Outcome
      requires Valid()
      reads this
    {
      ChoiceOf(W(), users)
    }

    /** Member i has its value under the outcome o. */
    ghost predicate Settled(o: Outcome, i: nat)
      requires Valid() && i < |g.members|
      reads this
    {
      && visible[i] == MemberVisible(W(), i, o.tri)
      && curr[i] == ValueUnder(W(), users, o, i)
    }

    ghost predicate ChoiceSettled(o: Outcome)
      requires Valid()
      reads this
    {
      && Outcome(csTri, csSel) == o
      && csVisible == ChoiceVisible(W()) && csRev == ChoiceFloor(W())
    }

    /** The VALID entries, except the members being computed, are those under the outcome o; what
        is evaluated anew gets its present meaning. */
    ghost predicate CoherentAs(o: Outcome, busy: set<nat>)
      requires Valid()
      reads this
    {
      && (csValid ==> ChoiceSettled(o))
      && (!csValid ==> valid <= busy && o == Meant())
      && (forall i :: i in valid && i !in busy ==> Settled(o, i))
    }

    /** Every VALID entry holds its meaning, except the members being computed. */
    ghost predicate Coherent(busy: set<nat>)
      requires Valid()
      reads this
    {
      CoherentAs(Meant(), busy)
    }

    /** The entries are up to date, or the choice is held to be n although it means something else. */
    ghost predicate Usable(o: Outcome)
      requires Valid()
      reads this
    {
      CoherentAs(o, {}) && (o == Meant() || o == Outcome(NO, None))
    }

    /** sym_calc_choice is under way: the choice is VALID and y, but holds nothing yet. */
    ghost predicate Picking(busy: set<nat>)
      requires Valid()
      reads this
    {
      && csValid && csTri == YES && FirstTri(W(), users) == YES
      && csVisible == ChoiceVisible(W()) && csRev == ChoiceFloor(W())
      && valid <= busy
    }

    /** sym_calc_visibility of a member; evaluating its condition evaluates the choice. */
    method CalcMemberVisibility(i: nat, ghost o: Outcome, ghost busy: set<nat>, ghost picking: bool)
      requires Valid() && i < |g.members|
      requires if picking then Picking(busy) else CoherentAs(o, busy)
      modifies this`csValid, this`csTri, this`csSel, this`csVisible, this`csRev, this`visible
      ensures Valid() && csValid && visible[i] == MemberVisible(W(), i, csTri)
      ensures if picking then Picking(busy) else CoherentAs(o, busy)
      decreases if csValid then 0 else 1, 2
    {
      CalcChoice(o, busy, picking);
      var tri := Eval(Condition(g, g.members[i]), With(Setting(g, modulesVal, others), csTri));
      visible := visible[i := Promote(g.members[i].sym, modulesVal, tri)];
    }

    /** "just get the first visible value" */
    method PickFirst(ghost busy: set<nat>) returns (r: Option<nat>)
      requires Valid() && Picking(busy)
      modifies this`csValid, this`csTri, this`csSel, this`csVisible, this`csRev, this`visible
      ensures Valid() && Picking(busy)
      ensures r == FirstMember(W(), 0)
      decreases 0, 3
    {
      var i := 0;
      while i < |g.members|
        invariant 0 <= i <= |g.members| && Valid() && Picking(busy)
        invariant FirstMember(W(), 0) == FirstMember(W(), i)
      {
        CalcMemberVisibility(i, Meant(), busy, true);
        if visible[i] != NO {
          return Some(i);
        }
        i := i + 1;
      }
      return None;
    }

    /** "any of the defaults visible?" */
    method PickDefault(ghost busy: set<nat>) returns (r: Option<nat>)
      requires Valid() && Picking(busy)
      modifies this`csValid, this`csTri, this`csSel, this`csVisible, this`csRev, this`visible
      ensures Valid() && Picking(busy)
      ensures r == FirstDefault(W(), 0)
      decreases 0, 4
    {
      var k := 0;
      while k < |g.defaults|
        invariant 0 <= k <= |g.defaults| && Valid() && Picking(busy)
        invariant FirstDefault(W(), 0) == FirstDefault(W(), k)
      {
        var d := g.defaults[k];
        if EvalDep(d.cond, others) != NO {
          CalcMemberVisibility(d.member, Meant(), busy, true);
          if visible[d.member] != NO {
            return Some(d.member);
          }
        }
        k := k + 1;
      }
      r := PickFirst(busy);
    }

    /** sym_calc_choice: the member picked, if any is visible */
    method PickMember(ghost busy: set<nat>) returns (r: Option<nat>)
      requires Valid() && Picking(busy)
      modifies this`csValid, this`csTri, this`csSel, this`csVisible, this`csRev, this`visible
      ensures Valid() && Picking(busy)
      ensures r == Pick(W(), users)
      decreases 0, 5
    {
      if users.picked.Some? {
        CalcMemberVisibility(users.picked.value, Meant(), busy, true);
        if visible[users.picked.value] != NO {
          return users.picked;
        }
      }
      r := PickDefault(busy);
    }

    /** sym_calc_value of the choice symbol */
    method CalcChoice(ghost o: Outcome, ghost busy: set<nat>, ghost picking: bool)
      requires Valid()
      requires if picking then Picking(busy) else CoherentAs(o, busy)
      modifies this`csValid, this`csTri, this`csSel, this`csVisible, this`csRev, this`visible
      ensures Valid() && csValid
      ensures if picking then Picking(busy) else CoherentAs(o, busy)
      ensures old(csValid) ==> csTri == old(csTri) && csSel == old(csSel) && visible == old(visible)
      decreases if csValid then 0 else 1, 1
    {
      if csValid {
        return;
      }
      csValid := true;
      csVisible := Promote(g.sym, modulesVal, EvalDep(g.prompt, others));
      csRev := AsType(g.sym, modulesVal, if g.rev.None? then NO else EvalDep(g.rev, others));
      csTri, csSel := NO, None;
      var tri := if csVisible != NO && users.choice.has then Ap(And, users.choice.tri, csVisible) else NO;
      csTri := AsType(g.sym, modulesVal, Ap(Or, tri, csRev));
      if csTri == YES {
        var r := PickMember(busy);
        csSel := r;
        if r.None? {
          csTri := NO;
        }
      }
    }

    /** sym_calc_value of a member: afterwards it is VALID and has its value. */
    method CalcMember(i: nat, ghost o: Outcome)
      requires Valid() && CoherentAs(o, {}) && i < |g.members|
      modifies this`csValid, this`csTri, this`csSel, this`csVisible, this`csRev, this`visible, this`curr, this`valid
      ensures Valid() && CoherentAs(o, {}) && i in valid && csValid
      ensures old(valid) <= valid
    {
      if i in valid {
        return;
      }
      valid := valid + {i};
      CalcMemberVisibility(i, o, {i}, false);
      curr := curr[i := NO];
      var tri := NO;
      if visible[i] == YES {
        tri := if csSel == Some(i) then YES else NO;
      } else if visible[i] != NO && users.members[i].has {
        tri := Ap(And, users.members[i].tri, visible[i]);
      }
      curr := curr[i := AsType(g.members[i].sym, modulesVal, tri)];
    }

    /** At most one member is y; one is exactly if the selected member's visibility is y. */
    ghost predicate Exclusive()
      requires Valid()
      reads this
    {
      && (forall i, j :: 0 <= i < j < |curr| ==> !(curr[i] == YES && curr[j] == YES))
      && ((exists i :: 0 <= i < |curr| && curr[i] == YES) <==>
          csSel.Some? && csSel.value < |visible| && visible[csSel.value] == YES)
    }

    /** Evaluate the choice and all members, in any order. */
    method CalcMembers(order: seq<nat>, ghost o: Outcome)
      requires Valid() && CoherentAs(o, {})
      requires forall i: nat :: i in order <==> i < |g.members|
      modifies this`csValid, this`csTri, this`csSel, this`csVisible, this`csRev, this`visible, this`curr, this`valid
      ensures Valid() && CoherentAs(o, {}) && csValid && Exclusive()
      ensures forall i :: 0 <= i < |g.members| ==> i in valid && curr[i] == ValueUnder(W(), users, o, i)
    {
      CalcChoice(o, {}, false);
      for n := 0 to |order|
        invariant Valid() && CoherentAs(o, {}) && csValid
        invariant forall k :: 0 <= k < n ==> order[k] in valid
      {
        assert order[n] in order;
        CalcMember(order[n], o);
      }
      forall i | 0 <= i < |g.members|
        ensures i in valid && Settled(o, i) && curr[i] == ValueUnder(W(), users, o, i)
      {
        assert i in order;
        var k :| 0 <= k < |order| && order[k] == i;
      }
      ExclusionUnder(W(), users, o);
      assert o.sel.Some? && o.sel.value < |g.members| ==> Settled(o, o.sel.value);
    }

    /** Another symbol was set: its new value, and sym_clear_all_valid */
    method OthersChanged(v: Valuation)
      requires Valid() && Sane(v)
      modifies this`others, this`csValid, this`valid
      ensures Valid() && Coherent({}) && others == v && csValid == false && valid == {}
    {
      others := v;
      csValid, valid := false, {};
    }

    /** sym_set_tristate_value of a member whose value is known */
    method SetMember(i: nat, val: Tristate, ghost o: Outcome) returns (ok: bool, ghost o': Outcome)
      requires Valid() && Usable(o) && i in valid
      modifies this`users, this`csValid, this`valid
      ensures Valid() && Usable(o')
      ensures ok == (old(curr[i]) == val || MemberInRange(W(), i, old(visible[i]), val))
      ensures users == if ok then SetUsers(old(users), i, val, old(visible)) else old(users)
      ensures o == old(Meant()) ==>
                && o' == Meant()
                && (ok ==> MemberOf(W(), users, i) == val)
                && (ok && val == YES ==> Meant() == Outcome(YES, Some(i)))
    {
      assert Settled(o, i);
      var oldval := curr[i];
      ok, o' := oldval == val || MemberInRange(Setting(g, modulesVal, others), i, visible[i], val), o;
      if !ok {
        return;
      }
      ghost var u := users;
      if o == Meant() {
        SetMemberExact(W(), u, i, val, visible);
      } else {
        NoneVisible(W(), i);
      }
      users := SetUsers(users, i, val, visible);
      if oldval != val {
        csValid, valid := false, {};
        o' := Meant();
      } else if o == ChoiceOf(W(), u) {
        SameEntries(u, i, o);
      } else {
        forall j | j in valid
          ensures Settled(o, j)
        {
          NoneVisible(W(), j);
          assert old(Settled(o, j));
        }
      }
    }

    /** The entries are still right after member i was set to the value it has. */
    lemma SameEntries(u: Users, i: nat, o: Outcome)
      requires Valid() && Fits(W(), u) && Quiet(u) && i < |g.members| && o == ChoiceOf(W(), u)
      requires users == SetUsers(u, i, MemberOf(W(), u, i), visible)
      requires csValid ==> ChoiceSettled(o)
      requires !csValid ==> valid == {}
      requires forall j :: j in valid ==> visible[j] == MemberVisible(W(), j, o.tri) && curr[j] == MemberOf(W(), u, j)
      ensures o == Meant() && CoherentAs(o, {})
    {
      SetMemberSame(W(), u, i, visible, i);
      forall j | j in valid
        ensures Settled(o, j)
      {
        SetMemberSame(W(), u, i, visible, j);
      }
    }

    /** sym_set_tristate_value of the choice symbol */
    method SetChoice(val: Tristate, ghost o: Outcome) returns (ok: bool, ghost o': Outcome)
      requires Valid() && Usable(o) && csValid
      modifies this`users, this`csValid, this`valid
      ensures Valid() && Usable(o')
      ensures ok == (old(csTri) == val || ChoiceInRange(W(), val))
      ensures users == if ok then SetChoiceUsers(old(users), val) else old(users)
      ensures ok && old(csTri) != val ==> o' == Meant()
      ensures o == old(Meant()) ==>
                (Coherent({}) <==> !(ok && old(csTri) == val && Emptied(W(), old(users)) && ChoiceFloor(W()) == MOD))
    {
      var oldval := csTri;
      ok := oldval == val
            || (&& csVisible != NO && !(GetType(g.sym, modulesVal) == Boolean && val == MOD)
                && csVisible > csRev && csRev <= val <= csVisible);
      o' := o;
      if !ok {
        return;
      }
      ghost var u := users;
      users := SetChoiceUsers(users, val);
      if oldval != val {
        csValid, valid := false, {};
        o' := Meant();
      } else {
        forall j | j in valid
          ensures Settled(o, j)
        {
          assert old(Settled(o, j));
        }
        SetChoiceHeld(W(), u, o);
      }
    }

    /** Any sequence of attempts to set members or the choice, and of changes to other symbols:
        whatever is accepted, after recalculation at most one member is y, and one is exactly if the
        selected member's visibility is y.  o is what the choice is held to be: what it means, unless it
        is held to be n. */
    method Session(requests: seq<Request>) returns (ghost o: Outcome)
      requires Valid() && Coherent({})
      requires forall r <- requests :: r.Set? ==> r.member < |g.members|
      requires forall r <- requests :: r.Change? ==> Sane(r.others)
      modifies this
      ensures Valid() && Usable(o) && csValid && Exclusive()
      ensures forall i :: 0 <= i < |g.members| ==> i in valid
    {
      o := Meant();
      for n := 0 to |requests|
        invariant Valid() && Usable(o)
      {
        assert requests[n] in requests;
        var ok;
        match requests[n]
        case Set(i, val) =>
          CalcMember(i, o);
          ok, o := SetMember(i, val, o);
        case SetGroup(val) =>
          CalcChoice(o, {}, false);
          ok, o := SetChoice(val, o);
        case Change(v) =>
          OthersChanged(v);
          o := Meant();
      }
      var all: seq<nat> := seq(|g.members|, i => i);
      forall i: nat | i < |g.members|
        ensures i in all
      {
        assert all[i] == i;
      }
      CalcMembers(all, o);
    }
  }
}
