/** Choice groups: which member a choice selects, and what its members evaluate to (symbol.c). */
module Choices {
  import opened Wrappers
  import opened Exprs
  import opened SymDeps
  import opened SymSolver
  import Conditions
  import Transformation

  /** A member: its properties, whose conditions have been propagated below the choice, and its user value. */
  datatype Member = Member(sym: Sym, props: seq<Property>, user: Option<Tri>)

  /** A choice with its members. A default is a condition and the member it names; selected is the member that the
      user has selected. */
  datatype Group = Group(choice: Sym, info: SymInfo, user: Option<User>, members: seq<Member>,
                         defaults: seq<(Dep, nat)>, selected: Option<nat>, modulesVal: Tri)

  /** The choice is an upper bound for a condition. */
  ghost predicate Bounded(d: Dep, choice: Sym) {
    forall env {:trigger Typed(env)} :: Typed(env) ==> EvalDep(d, env) <= TriOf(env, choice)
  }

  /** Selections and defaults name members; choice and members are bools or tristates; the choice bounds every prompt
      of its members. */
  ghost predicate WellFormed(g: Group) {
    && (g.choice.typ.Boolean? || g.choice.typ.Tristate?)
    && (forall m :: m in g.members ==> m.sym.typ.Boolean? || m.sym.typ.Tristate?)
    && (forall m, p :: m in g.members && p in m.props && IsPrompt(p.kind) ==> Bounded(p.visible, g.choice))
    && Named(g)
  }

  predicate Named(g: Group) {
    && (forall i :: 0 <= i < |g.defaults| ==> g.defaults[i].1 < |g.members|)
    && (g.selected.Some? ==> g.selected.value < |g.members|)
  }

  /** Below a tristate choice, members that are no tristates get a further condition. */
  function MemberCondition(choice: Sym, typ: SymType, d: Dep): Dep {
    if choice.typ.Tristate? && !typ.Tristate? then Transformation.AllocAnd(Some(Compare(Equal, choice, SYM_YES)), d)
    else d
  }

  /** The conditions that menu_finalize gives to the prompts of members are bounded by the choice. */
  lemma MembersAreBounded(choice: Sym, around: seq<Dep>, own: Dep, modules: Sym, typ: SymType)
    requires Conditions.AllFitDeps(around) && Transformation.FitsDep(false, own)
    ensures var outer := Conditions.Enclosing(Conditions.Place(Some(choice), around), modules);
      Bounded(MemberCondition(choice, typ, Transformation.PropagatePrompt(outer, own, modules, typ)), choice)
  {
    var place := Conditions.Place(Some(choice), around);
    var d := Transformation.PropagatePrompt(Conditions.Enclosing(place, modules), own, modules, typ);
    forall env | Typed(env)
      ensures EvalDep(MemberCondition(choice, typ, d), env) <= TriOf(env, choice)
    {
      Conditions.EnclosingSound(place, env, modules);
      Transformation.PropagatePromptSound(Conditions.Enclosing(place, modules), own, env, modules, typ);
      WrittenBelowChoice(place, env, modules);
      MemberConditionBelow(choice, typ, d, env);
    }
  }

  lemma MemberConditionBelow(choice: Sym, typ: SymType, d: Dep, env: Env)
    requires EvalDep(d, env) <= TriOf(env, choice)
    ensures EvalDep(MemberCondition(choice, typ, d), env) <= TriOf(env, choice)
  {
    if MemberCondition(choice, typ, d) != d && d.None? {
      assert TriOf(env, choice) == YES;
    }
  }

  lemma {:induction false} WrittenBelowChoice(place: Conditions.Place, env: Env, modules: Sym)
    requires place.choice.Some?
    ensures Conditions.AsWritten(place, env, modules) <= TriOf(env, place.choice.value)
    decreases |place.around|
  {
    var n := |place.around|;
    if n > 0 {
      WrittenBelowChoice(place.(around := place.around[..n - 1]), env, modules);
    }
  }

  /** With it they are visible under a choice that is y only, and otherwise as before. The conditions of all other
      members stay as they are. */
  lemma BoolMembersNeedYes(choice: Sym, typ: SymType, d: Dep, env: Env)
    requires Typed(env) && d.Some?
    ensures choice.typ.Tristate? && !typ.Tristate? ==>
      EvalDep(MemberCondition(choice, typ, d), env) == if TriOf(env, choice) == YES then EvalDep(d, env) else NO
    ensures !choice.typ.Tristate? || typ.Tristate? ==> MemberCondition(choice, typ, d) == d
  {
    if choice.typ.Tristate? && !typ.Tristate? {
      EqualToTriConstant(env, choice);
      var test := Compare(Equal, choice, SYM_YES);
      assert Eval(test, env) == FromBool(CompareSyms(env, choice, SYM_YES) == 0);
      assert MemberCondition(choice, typ, d) == Some(Bin(And, test, d.value));
    }
  }

  // ---------- the value of a choice before it selects ----------

  /** What the equations give a choice: no defaults and no implied values. */
  function Mode(g: Group, env: Env): Tri {
    var visible := Visible(g.choice, g.info, env, g.modulesVal);
    var dir := DirDep(g.choice, g.info, env, g.modulesVal);
    var rev := RevDep(g.choice, g.info.revDep, env, g.modulesVal);
    Promoted(Selected(OwnTri(g.user, visible, dir, NO, NO), dir, rev), g.choice, g.modulesVal)
  }

  /** The environment while the choice has the value t. */
  function Under(env: Env, choice: Sym, t: Tri): Env {
    var tri := env.tri;
    env.(tri := (s: Sym) => if s == choice then t else tri(s))
  }

  /** A value that the choice can have. */
  predicate Possible(g: Group, t: Tri) {
    t == MOD ==> !BehavesBoolean(g.choice, g.modulesVal)
  }

  /** The environment of the solver. */
  ghost predicate Solved(g: Group, env: Env) {
    Typed(env) && env.modules == ModulesSym(g.modulesVal)
  }

  lemma ModeIsPossible(g: Group, env: Env)
    ensures Possible(g, Mode(g, env))
  {
  }

  lemma UnderTyped(g: Group, env: Env, t: Tri)
    requires Solved(g, env) && Possible(g, t) && (g.choice.typ.Boolean? || g.choice.typ.Tristate?)
    ensures Typed(Under(env, g.choice, t)) && TriOf(Under(env, g.choice, t), g.choice) == t
  {
  }

  // ---------- visibility of members ----------

  /** A tristate member that could only be m disappears when the choice is y. */
  function PromptUnder(p: Property, typ: SymType, env: Env, t: Tri): Tri {
    var v := EvalDep(p.visible, env);
    if typ.Tristate? && v == MOD && t == YES then NO else v
  }

  function AnyPrompt(ps: seq<Property>, typ: SymType, env: Env, t: Tri): Tri {
    if ps == [] then NO
    else TriOr(if IsPrompt(ps[0].kind) then PromptUnder(ps[0], typ, env, t) else NO, AnyPrompt(ps[1..], typ, env, t))
  }

  /** The visibility of a member while the choice has the value t. */
  function VisibleUnder(g: Group, i: nat, env: Env, t: Tri): Tri
    requires i < |g.members|
  {
    var m := g.members[i];
    Promote(AnyPrompt(m.props, m.sym.typ, Under(env, g.choice, t), t), m.sym.typ, g.modulesVal)
  }

  function Visibilities(g: Group, env: Env, t: Tri): (vs: seq<Tri>)
    ensures |vs| == |g.members|
  {
    seq(|g.members|, i requires 0 <= i < |g.members| => VisibleUnder(g, i, env, t))
  }

  lemma {:induction false} PromptsBounded(ps: seq<Property>, typ: SymType, env: Env, choice: Sym)
    requires Typed(env) && forall p :: p in ps && IsPrompt(p.kind) ==> Bounded(p.visible, choice)
    ensures var t := TriOf(env, choice);
      AnyPrompt(ps, typ, env, t) <= t && (typ.Tristate? && t == YES ==> AnyPrompt(ps, typ, env, t) != MOD)
  {
    if ps != [] {
      assert ps[0] in ps;
      PromptsBounded(ps[1..], typ, env, choice);
    }
  }

  /** Under y a member is visible or not, under n it is not, and under m no tristate member is more than m. */
  lemma VisibilityBounded(g: Group, i: nat, env: Env, t: Tri)
    requires WellFormed(g) && i < |g.members| && Solved(g, env) && Possible(g, t)
    ensures t == YES ==> VisibleUnder(g, i, env, t) != MOD
    ensures t == NO ==> VisibleUnder(g, i, env, t) == NO
    ensures t == MOD && g.members[i].sym.typ.Tristate? ==> VisibleUnder(g, i, env, t) <= MOD
    ensures g.members[i].sym.typ.Boolean? ==> VisibleUnder(g, i, env, t) != MOD
  {
    var m := g.members[i];
    UnderTyped(g, env, t);
    assert m in g.members;
    PromptsBounded(m.props, m.sym.typ, Under(env, g.choice, t), g.choice);
  }

  // ---------- selection ----------

  function FirstVisible(vs: seq<Tri>): (i: nat)
    ensures i <= |vs| && (i < |vs| ==> vs[i] != NO) && forall j :: 0 <= j < i ==> vs[j] == NO
  {
    if vs == [] || vs[0] != NO then 0 else 1 + FirstVisible(vs[1..])
  }

  predicate Usable(d: (Dep, nat), vs: seq<Tri>, env: Env) {
    EvalDep(d.0, env) != NO && d.1 < |vs| && vs[d.1] != NO
  }

  function FirstUsable(ds: seq<(Dep, nat)>, vs: seq<Tri>, env: Env): (i: nat)
    ensures i <= |ds| && (i < |ds| ==> Usable(ds[i], vs, env)) && forall j :: 0 <= j < i ==> !Usable(ds[j], vs, env)
  {
    if ds == [] || Usable(ds[0], vs, env) then 0 else 1 + FirstUsable(ds[1..], vs, env)
  }

  /** sym_choice_default. */
  function DefaultMember(g: Group, vs: seq<Tri>, env: Env): Option<nat> {
    var (u, v) := (FirstUsable(g.defaults, vs, env), FirstVisible(vs));
    if u < |g.defaults| then Some(g.defaults[u].1) else if v < |vs| then Some(v) else None
  }

  /** The member that a choice of value y selects: what the user selected if it is visible, else the first default
      that applies, else the first visible member. */
  function Chosen(g: Group, vs: seq<Tri>, env: Env): Option<nat>
    requires Named(g) && |vs| == |g.members|
  {
    if g.selected.Some? && vs[g.selected.value] != NO then g.selected else DefaultMember(g, vs, env)
  }

  /** There is a selection exactly when a member is visible, and it is visible. */
  lemma ChosenIsVisible(g: Group, vs: seq<Tri>, env: Env)
    requires Named(g) && |vs| == |g.members|
    ensures var c := Chosen(g, vs, env);
      && (c.Some? ==> c.value < |vs| && vs[c.value] != NO)
      && (c.None? <==> forall i :: 0 <= i < |vs| ==> vs[i] == NO)
  {
    var (u, v) := (FirstUsable(g.defaults, vs, env), FirstVisible(vs));
    if u < |g.defaults| {
      assert Usable(g.defaults[u], vs, env);
    }
    if v < |vs| {
      assert vs[v] != NO;
    }
  }

  // ---------- the code ----------

  class Choice {
    const group: Group
    const env: Env            // the values of the symbols outside of the group
    var tri: Tri              // curr.tri of the choice
    var val: Option<nat>      // curr.val of the choice: a member
    var userSet: bool         // SYMBOL_DEF_USER of the choice
    var visible: seq<Tri>     // visible of the members
    var curr: seq<Tri>        // curr.tri of the members

    constructor (g: Group, e: Env)
      requires WellFormed(g) && Solved(g, e)
      ensures group == g && env == e && userSet == g.user.Some? && Shaped()
    {
      group, env, tri, val, userSet := g, e, NO, None, g.user.Some?;
      visible, curr := seq(|g.members|, _ => NO), seq(|g.members|, _ => NO);
    }

    ghost predicate Shaped()
      reads this
    {
      WellFormed(group) && Solved(group, env) && |visible| == |curr| == |group.members|
    }

    /** sym_calc_visibility of a member. */
    method CalcVisibility(i: nat)
      requires Shaped() && i < |group.members|
      modifies this`visible
      ensures Shaped() && visible == old(visible)[i := VisibleUnder(group, i, env, tri)]
    {
      var m := group.members[i];
      var now := Under(env, group.choice, tri);
      var v: Tri := NO;
      for k := 0 to |m.props|
        invariant TriOr(v, AnyPrompt(m.props[k..], m.sym.typ, now, tri)) == AnyPrompt(m.props, m.sym.typ, now, tri)
      {
        assert m.props[k..][1..] == m.props[k + 1..];
        if IsPrompt(m.props[k].kind) {
          var prompt := EvalDep(m.props[k].visible, now);
          if m.sym.typ.Tristate? && prompt == MOD && tri == YES {
            prompt := NO;
          }
          v := TriOr(v, prompt);
        }
      }
      if v == MOD && (!m.sym.typ.Tristate? || group.modulesVal == NO) {
        v := YES;
      }
      visible := visible[i := v];
    }

    /** sym_choice_default. */
    method ChoiceDefault() returns (d: Option<nat>)
      requires Shaped()
      ensures d == DefaultMember(group, visible, Under(env, group.choice, tri))
    {
      var (ds, now) := (group.defaults, Under(env, group.choice, tri));
      for i := 0 to |ds|
        invariant forall j :: 0 <= j < i ==> !Usable(ds[j], visible, now)
      {
        var condition := EvalDep(ds[i].0, now);
        if condition == NO {
          continue;
        }
        if visible[ds[i].1] != NO {
          return Some(ds[i].1);
        }
      }
      for i := 0 to |visible|
        invariant forall j :: 0 <= j < i ==> visible[j] == NO
      {
        if visible[i] != NO {
          return Some(i);
        }
      }
      d := None;
    }

    /** sym_calc_choice, for a choice whose value so far is y. The choice keeps its user value only while all visible
        members have one. */
    method CalcChoice()
      requires Shaped() && tri == YES
      modifies this`visible, this`val, this`tri, this`userSet
      ensures Shaped() && visible == Visibilities(group, env, YES)
      ensures val == Chosen(group, visible, Under(env, group.choice, YES))
      ensures tri == if val.Some? then YES else NO
      ensures userSet ==
        (old(userSet) && forall i :: 0 <= i < |visible| && visible[i] != NO ==> group.members[i].user.Some?)
    {
      var flags := true;
      for i := 0 to |group.members|
        invariant Shaped() && tri == YES && userSet == old(userSet) && visible[..i] == Visibilities(group, env, YES)[..i]
        invariant flags <==> forall j :: 0 <= j < i && visible[j] != NO ==> group.members[j].user.Some?
      {
        CalcVisibility(i);
        if visible[i] != NO {
          flags := flags && group.members[i].user.Some?;
        }
      }
      assert visible[..|visible|] == visible;
      userSet := userSet && flags;
      if group.selected.Some? && visible[group.selected.value] != NO {
        val := group.selected;
        return;
      }
      val := ChoiceDefault();
      if val == None {
        tri := NO;
      }
    }

    /** sym_calc_value of a member, once the choice has been calculated. The direct and reverse dependencies of
        members are never calculated, so that they count as n. */
    method CalcMember(i: nat)
      requires Shaped() && i < |group.members|
      modifies this`visible, this`curr
      ensures Shaped()
      ensures visible == old(visible)[i := VisibleUnder(group, i, env, tri)]
      ensures curr == old(curr)[i := MemberValue(group, env, tri, val, i)]
    {
      CalcVisibility(i);
      var (m, now) := (group.members[i], Under(env, group.choice, tri));
      var t: Tri := NO;
      if visible[i] == YES {
        t := if val == Some(i) then YES else NO;
      } else if visible[i] != NO && m.user.Some? {
        t := TriAnd(m.user.value, visible[i]);
      } else {
        t := DefaultTri(m.props, now);
      }
      if t == MOD && (m.sym.typ.Boolean? || visible[i] == YES || group.modulesVal == NO) {
        t := YES;
      }
      curr := curr[i := t];
    }

    /** The choice and all its members. */
    method Resolve()
      requires Shaped()
      modifies this
      ensures Shaped() && Resolved(group, env, tri, val, curr)
    {
      tri, val := Mode(group, env), None;
      if tri == YES {
        CalcChoice();
      }
      for i := 0 to |group.members|
        invariant Shaped() && tri == TriOfChoice(group, env) && val == ValOfChoice(group, env)
        invariant forall j :: 0 <= j < i ==> curr[j] == MemberValue(group, env, tri, val, j)
      {
        CalcMember(i);
      }
    }
  }

  // ---------- the values, and what holds of them ----------

  function ValOfChoice(g: Group, env: Env): Option<nat>
    requires Named(g)
  {
    if Mode(g, env) == YES then Chosen(g, Visibilities(g, env, YES), Under(env, g.choice, YES)) else None
  }

  /** Without a visible member, a choice of value y falls back to n. */
  function TriOfChoice(g: Group, env: Env): Tri
    requires Named(g)
  {
    if Mode(g, env) == YES && ValOfChoice(g, env).None? then NO else Mode(g, env)
  }

  /** What a default of its own makes of a member. */
  function OwnDefault(g: Group, i: nat, env: Env, t: Tri): Tri
    requires i < |g.members|
  {
    Promoted(DefaultTri(g.members[i].props, Under(env, g.choice, t)), g.members[i].sym, g.modulesVal)
  }

  function MemberValue(g: Group, env: Env, t: Tri, val: Option<nat>, i: nat): Tri
    requires i < |g.members|
  {
    var (m, v) := (g.members[i], VisibleUnder(g, i, env, t));
    if v == YES then (if val == Some(i) then YES else NO)
    else if v == MOD && m.user.Some? then TriAnd(m.user.value, MOD)
    else OwnDefault(g, i, env, t)
  }

  ghost predicate Resolved(g: Group, env: Env, tri: Tri, val: Option<nat>, curr: seq<Tri>)
    requires Named(g)
  {
    && tri == TriOfChoice(g, env) && val == ValOfChoice(g, env) && |curr| == |g.members|
    && forall i :: 0 <= i < |curr| ==> curr[i] == MemberValue(g, env, tri, val, i)
  }

  /** No member that is not visible has a default of its own that applies. */
  predicate QuietDefaults(g: Group, env: Env, t: Tri) {
    forall i :: 0 <= i < |g.members| && VisibleUnder(g, i, env, t) == NO ==> OwnDefault(g, i, env, t) == NO
  }

  predicate OnlyMember(curr: seq<Tri>, i: nat) {
    i < |curr| && forall j :: 0 <= j < |curr| ==> curr[j] == if j == i then YES else NO
  }

  lemma Possibly(g: Group, env: Env, tri: Tri)
    requires Named(g) && tri == TriOfChoice(g, env)
    ensures Possible(g, tri)
  {
    ModeIsPossible(g, env);
  }

  /** A choice that evaluates to y selects a visible member, which is y. All others are n if and only if no member that
      is not visible has a default of its own that applies. */
  lemma ExactlyOne(g: Group, env: Env, tri: Tri, val: Option<nat>, curr: seq<Tri>)
    requires WellFormed(g) && Solved(g, env) && Resolved(g, env, tri, val, curr) && tri == YES
    ensures val.Some? && val.value < |curr| && Visibilities(g, env, YES)[val.value] == YES && curr[val.value] == YES
    ensures OnlyMember(curr, val.value) <==> QuietDefaults(g, env, YES)
  {
    var vs := Visibilities(g, env, YES);
    ChosenIsVisible(g, vs, Under(env, g.choice, YES));
    Possibly(g, env, tri);
    forall i | 0 <= i < |curr|
      ensures vs[i] == VisibleUnder(g, i, env, YES) && vs[i] != MOD
    {
      VisibilityBounded(g, i, env, YES);
    }
    if OnlyMember(curr, val.value) {
      forall i | 0 <= i < |g.members| && VisibleUnder(g, i, env, YES) == NO
        ensures OwnDefault(g, i, env, YES) == NO
      {
        assert curr[i] == MemberValue(g, env, tri, val, i);
      }
    }
  }

  /** A choice evaluates to y exactly when it should be and a member is visible; otherwise it falls back to n. */
  lemma FallsBack(g: Group, env: Env)
    requires WellFormed(g) && Mode(g, env) == YES
    ensures TriOfChoice(g, env) == YES <==> exists i :: 0 <= i < |g.members| && Visibilities(g, env, YES)[i] != NO
    ensures TriOfChoice(g, env) != YES ==> TriOfChoice(g, env) == NO
  {
    ChosenIsVisible(g, Visibilities(g, env, YES), Under(env, g.choice, YES));
  }

  /** The reverse dependency of a choice that is not optional: m while its prompt is visible. */
  ghost predicate Required(g: Group, prompt: Dep) {
    && g.info.dirDep == None
    && exists rest :: g.info.revDep == Conditions.AllocOr(rest, Transformation.AllocAnd(prompt, Some(Symbol(SYM_MOD))))
  }

  /** While it is visible such a choice is not n, whatever the user sets; as a bool it is y, and then it selects one of
      its visible members if it has any. */
  lemma VisibleChoiceSelects(g: Group, env: Env, prompt: Dep, tri: Tri, val: Option<nat>, curr: seq<Tri>)
    requires WellFormed(g) && Solved(g, env) && Resolved(g, env, tri, val, curr)
    requires Required(g, prompt) && EvalDep(prompt, env) != NO
    ensures Mode(g, env) != NO
    ensures BehavesBoolean(g.choice, g.modulesVal) && (exists i :: 0 <= i < |curr| && Visibilities(g, env, YES)[i] != NO)
      ==> tri == YES && val.Some? && val.value < |curr| && curr[val.value] == YES
  {
    var rest :| g.info.revDep == Conditions.AllocOr(rest, Transformation.AllocAnd(prompt, Some(Symbol(SYM_MOD))));
    var required := Transformation.AllocAnd(prompt, Some(Symbol(SYM_MOD)));
    Conditions.ReverseOr(rest, required, env);
    assert Eval(Symbol(SYM_MOD), env) == MOD;
    assert Conditions.ReverseValue(required, env) != NO;
    assert Conditions.ReverseValue(g.info.revDep, env) != NO;
    if Mode(g, env) == YES {
      FallsBack(g, env);
      if tri == YES {
        ExactlyOne(g, env, tri, val, curr);
      }
    }
  }

  /** Under a choice that is n, all members are n if and only if none has a default of its own that applies. Under m
      no member is y that has none. */
  lemma NoneSelected(g: Group, env: Env, tri: Tri, val: Option<nat>, curr: seq<Tri>)
    requires WellFormed(g) && Solved(g, env) && Resolved(g, env, tri, val, curr) && tri != YES
    ensures tri == NO ==> ((forall i :: 0 <= i < |curr| ==> curr[i] == NO) <==> QuietDefaults(g, env, NO))
    ensures tri == MOD ==> forall i :: 0 <= i < |curr| && OwnDefault(g, i, env, MOD) == NO ==> curr[i] != YES
  {
    Possibly(g, env, tri);
    forall i | 0 <= i < |curr|
      ensures tri == NO ==> VisibleUnder(g, i, env, NO) == NO
      ensures curr[i] == MemberValue(g, env, tri, val, i)
    {
      VisibilityBounded(g, i, env, tri);
    }
    if tri == NO && forall i :: 0 <= i < |curr| ==> curr[i] == NO {
      forall i | 0 <= i < |g.members|
        ensures OwnDefault(g, i, env, NO) == NO
      {
        assert curr[i] == OwnDefault(g, i, env, NO);
      }
    }
    if tri == MOD {
      assert Mode(g, env) == MOD && val == None;
    }
  }
}
