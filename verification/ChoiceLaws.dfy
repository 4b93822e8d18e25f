/** What a choice selects and what its members are, in terms of the configuration. */
module ChoiceLaws {
  import opened Wrappers
  import opened Exprs
  import opened SymDeps
  import opened SymSolver
  import opened Choices
  import SymLaws

  // ---------- the value of the choice ----------

  /** Before it selects, a choice has the value that the user has set as far as it is visible, and at least what
      reverse dependencies ask for; with unmet direct dependencies it is n. */
  lemma ModeIs(g: Group, env: Env)
    ensures var (t, v) := (Mode(g, env), Visible(g.choice, g.info, env, g.modulesVal));
      var dir := DirDep(g.choice, g.info, env, g.modulesVal);
      var rev := RevDep(g.choice, g.info.revDep, env, g.modulesVal);
      var user: Tri := if v != NO && g.user.Some? then TriAnd(g.user.value.tri, v) else NO;
      if dir == NO && rev != NO then t == NO
      else t == TriOr(user, rev) || (t == YES && TriOr(user, rev) == MOD && BehavesBoolean(g.choice, g.modulesVal))
  {
  }

  /** Only a choice that is y selects. */
  lemma OnlyYesSelects(g: Group, env: Env, tri: Tri, val: Option<nat>, curr: seq<Tri>)
    requires Named(g) && Resolved(g, env, tri, val, curr)
    ensures val.Some? ==> Mode(g, env) == YES && tri == YES
    ensures Mode(g, env) != YES ==> tri == Mode(g, env)
  {
  }

  // ---------- visibility of members ----------

  /** A prompt of a member that counts, while the choice has the value t: a tristate's prompt that is m does not when
      the choice is y. */
  predicate Counts(p: Property, typ: SymType, now: Env, t: Tri, u: Tri) {
    && (p.kind.Prompt? || p.kind.MenuProp? || p.kind.Comment?)
    && EvalDep(p.visible, now) == u && !(typ.Tristate? && t == YES && u == MOD)
  }

  ghost predicate Greatest(ps: seq<Property>, typ: SymType, now: Env, t: Tri, u: Tri) {
    && (forall i, w: Tri :: 0 <= i < |ps| && Counts(ps[i], typ, now, t, w) ==> w <= u)
    && (u != NO ==> exists i :: 0 <= i < |ps| && Counts(ps[i], typ, now, t, u))
  }

  lemma {:induction false} AnyPromptGreatest(ps: seq<Property>, typ: SymType, now: Env, t: Tri)
    ensures Greatest(ps, typ, now, t, AnyPrompt(ps, typ, now, t))
  {
    if ps != [] {
      AnyPromptGreatest(ps[1..], typ, now, t);
      var (u, rest) := (AnyPrompt(ps, typ, now, t), AnyPrompt(ps[1..], typ, now, t));
      assert forall i :: 0 < i < |ps| ==> ps[i] == ps[1..][i - 1];
      if u != NO {
        if u == rest {
          var i :| 0 <= i < |ps[1..]| && Counts(ps[1..][i], typ, now, t, u);
          assert Counts(ps[i + 1], typ, now, t, u);
        } else {
          assert Counts(ps[0], typ, now, t, u);
        }
      }
    }
  }

  /** A member is as visible as its best prompt allows while the choice has the value t; if it cannot be m, as y. */
  lemma MemberVisible(g: Group, i: nat, env: Env, t: Tri, u: Tri)
    requires i < |g.members|
    requires Greatest(g.members[i].props, g.members[i].sym.typ, Under(env, g.choice, t), t, u)
    ensures var v := VisibleUnder(g, i, env, t);
      v == u || (v == YES && u == MOD && (!g.members[i].sym.typ.Tristate? || g.modulesVal == NO))
    ensures VisibleUnder(g, i, env, t) == MOD ==> g.members[i].sym.typ.Tristate? && g.modulesVal != NO
  {
    var (ps, typ, now) := (g.members[i].props, g.members[i].sym.typ, Under(env, g.choice, t));
    AnyPromptGreatest(ps, typ, now, t);
    var w := AnyPrompt(ps, typ, now, t);
    if u != NO {
      var k :| 0 <= k < |ps| && Counts(ps[k], typ, now, t, u);
    }
    if w != NO {
      var k :| 0 <= k < |ps| && Counts(ps[k], typ, now, t, w);
    }
    assert u == w;
  }

  // ---------- the selection ----------

  /** The member can be selected: it is visible while the choice is y. */
  predicate Selectable(g: Group, i: nat, env: Env) {
    i < |g.members| && VisibleUnder(g, i, env, YES) != NO
  }

  /** The k-th default applies: its condition is not n, and its member can be selected. */
  predicate DefaultApplies(g: Group, k: nat, env: Env) {
    k < |g.defaults| && EvalDep(g.defaults[k].0, Under(env, g.choice, YES)) != NO && Selectable(g, g.defaults[k].1, env)
  }

  lemma VisibilitiesAre(g: Group, env: Env, i: nat)
    requires i < |g.members|
    ensures Visibilities(g, env, YES)[i] != NO <==> Selectable(g, i, env)
  {
  }

  /** What the user has selected is selected, if it is visible, and of the visible members it alone is y. */
  lemma UserSelects(g: Group, env: Env, tri: Tri, val: Option<nat>, curr: seq<Tri>)
    requires WellFormed(g) && Solved(g, env) && Resolved(g, env, tri, val, curr) && tri == YES
    requires g.selected.Some? && Selectable(g, g.selected.value, env)
    ensures val == g.selected && curr[g.selected.value] == YES
    ensures forall i :: 0 <= i < |curr| && i != g.selected.value && Selectable(g, i, env) ==> curr[i] == NO
  {
    VisibilitiesAre(g, env, g.selected.value);
    VisibleAreYes(g, env, tri, val, curr);
  }

  /** Of the members that can be selected, the selected one is y and the others are n. */
  lemma VisibleAreYes(g: Group, env: Env, tri: Tri, val: Option<nat>, curr: seq<Tri>)
    requires WellFormed(g) && Solved(g, env) && Resolved(g, env, tri, val, curr) && tri == YES
    ensures forall i :: 0 <= i < |curr| && Selectable(g, i, env) ==> curr[i] == if val == Some(i) then YES else NO
  {
    forall i | 0 <= i < |curr| && Selectable(g, i, env)
      ensures curr[i] == if val == Some(i) then YES else NO
    {
      Possibly(g, env, tri);
      VisibilityBounded(g, i, env, YES);
      assert curr[i] == MemberValue(g, env, tri, val, i);
    }
  }

  /** Otherwise the member of the first default that applies is. */
  lemma DefaultSelects(g: Group, env: Env, tri: Tri, val: Option<nat>, curr: seq<Tri>, k: nat)
    requires WellFormed(g) && Solved(g, env) && Resolved(g, env, tri, val, curr) && tri == YES
    requires g.selected.Some? ==> !Selectable(g, g.selected.value, env)
    requires DefaultApplies(g, k, env) && forall j :: 0 <= j < k ==> !DefaultApplies(g, j, env)
    ensures val == Some(g.defaults[k].1) && curr[g.defaults[k].1] == YES
  {
    var (vs, now) := (Visibilities(g, env, YES), Under(env, g.choice, YES));
    forall j | 0 <= j < |g.defaults|
      ensures Usable(g.defaults[j], vs, now) <==> DefaultApplies(g, j, env)
    {
      VisibilitiesAre(g, env, g.defaults[j].1);
    }
    if g.selected.Some? {
      VisibilitiesAre(g, env, g.selected.value);
    }
    assert FirstUsable(g.defaults, vs, now) == k;
    VisibleAreYes(g, env, tri, val, curr);
  }

  /** And without any the first visible member. */
  lemma FirstSelects(g: Group, env: Env, tri: Tri, val: Option<nat>, curr: seq<Tri>, i: nat)
    requires WellFormed(g) && Solved(g, env) && Resolved(g, env, tri, val, curr) && tri == YES
    requires g.selected.Some? ==> !Selectable(g, g.selected.value, env)
    requires forall k :: 0 <= k < |g.defaults| ==> !DefaultApplies(g, k, env)
    requires Selectable(g, i, env) && forall j :: 0 <= j < i ==> !Selectable(g, j, env)
    ensures val == Some(i) && curr[i] == YES
  {
    var (vs, now) := (Visibilities(g, env, YES), Under(env, g.choice, YES));
    forall j | 0 <= j < |g.defaults|
      ensures !Usable(g.defaults[j], vs, now)
    {
      VisibilitiesAre(g, env, g.defaults[j].1);
      assert !DefaultApplies(g, j, env);
    }
    forall j | 0 <= j < |g.members|
      ensures vs[j] != NO <==> Selectable(g, j, env)
    {
      VisibilitiesAre(g, env, j);
    }
    if g.selected.Some? {
      VisibilitiesAre(g, env, g.selected.value);
    }
    assert FirstVisible(vs) == i;
    VisibleAreYes(g, env, tri, val, curr);
  }

  // ---------- the other members ----------

  /** A member that is visible as m has its user value, up to m; every other one that cannot be selected has the first
      default of its own that applies. */
  lemma OtherMember(g: Group, env: Env, tri: Tri, val: Option<nat>, curr: seq<Tri>, i: nat, k: nat)
    requires Named(g) && Resolved(g, env, tri, val, curr) && i < |g.members| && VisibleUnder(g, i, env, tri) != YES
    requires SymLaws.FirstOf(Default, g.members[i].props, Under(env, g.choice, tri), k)
    ensures var (m, v) := (g.members[i], VisibleUnder(g, i, env, tri));
      if v != NO && m.user.Some? then curr[i] == TriAnd(m.user.value, v)
      else SymLaws.UpTo(curr[i], SymLaws.DefaultAt(m.props, Under(env, g.choice, tri), k), m.sym, g.modulesVal)
  {
    SymLaws.FirstPropAt(Default, g.members[i].props, Under(env, g.choice, tri), k);
    assert curr[i] == MemberValue(g, env, tri, val, i);
  }
}
