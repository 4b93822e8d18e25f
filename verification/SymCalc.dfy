/** sym_calc_value as the code runs it: recursive, with the SYMBOL_VALID flag set before a symbol is calculated. */
module SymCalc {
  import opened Wrappers
  import opened CStrings
  import opened Exprs
  import opened SymDeps
  import opened SymSolver

  /** The fields of a symbol that a calculation writes. */
  datatype Fields = Fields(curr: Value, visible: Tri, dirDep: Tri, revDep: Tri, implied: Tri)

  const CONSTANTS: set<Sym> := {SYM_NO, SYM_MOD, SYM_YES}

  function ConstantFields(s: Sym): Fields {
    Fields(Value(if s == SYM_YES then YES else if s == SYM_MOD then MOD else NO, s.name), NO, NO, NO, NO)
  }

  lemma {:induction false} PropMentioned(ps: seq<Property>, i: nat)
    requires i < |ps|
    ensures MentionedProp(ps[i]) <= MentionedProps(ps)
  {
    if i > 0 {
      PropMentioned(ps[1..], i - 1);
      assert ps[1..][i - 1] == ps[i];
    }
  }

  lemma {:induction false} BoundsAt(ps: seq<Property>, all: set<Sym>, i: nat)
    requires i < |ps| && ConstantBounds(ps, all)
    ensures ps[i].bounds.Some? ==>
      ConstantBound(ps[i].bounds.value.0, all) && ConstantBound(ps[i].bounds.value.1, all)
  {
    if i > 0 {
      BoundsAt(ps[1..], all, i - 1);
      assert ps[1..][i - 1] == ps[i];
    }
  }

  /** The fields of s when every symbol has the value of the solution. */
  ghost function SolutionFields(sys: System, s: Sym): Fields
    requires Acyclic(sys)
  {
    var (info, env, m) := (sys.graph(s), SolutionEnv(sys), sys.modulesVal);
    Fields(Solve(sys, s), Visible(s, info, env, m), DirDep(s, info, env, m),
           RevDep(s, info.revDep, env, m), RevDep(s, info.implied, env, m))
  }

  /** Names the symbols whose solution a proof looks into. */
  ghost predicate Wanted(s: Sym) { true }

  class Solver {
    const sys: System
    var valid: set<Sym>            // SYMBOL_VALID
    var fields: map<Sym, Fields>
    ghost var busy: set<Sym>       // symbols whose calculation has started and not finished
    ghost const sol: Sym -> Fields
    ghost const env: Env

    /** No symbol is valid but the constants y, m and n. The fields hold whatever earlier calculations left. */
    constructor (system: System, leftover: map<Sym, Fields>)
      requires Acyclic(system) && CONSTANTS <= system.all <= leftover.Keys
      ensures sys == system && Valid() && forall s :: sol(s).curr == Solve(system, s)
    {
      sys, valid, busy := system, CONSTANTS, {};
      sol, env := (s: Sym) => SolutionFields(system, s), SolutionEnv(system);
      fields := leftover + map[SYM_NO := ConstantFields(SYM_NO), SYM_MOD := ConstantFields(SYM_MOD),
                               SYM_YES := ConstantFields(SYM_YES)];
      new;
      Reveal(SYM_NO);
      Reveal(SYM_MOD);
      Reveal(SYM_YES);
    }

    /** sol and env are the solution of the equations. */
    ghost predicate Specified() {
      && Acyclic(sys)
      && forall s {:trigger Wanted(s)} :: Wanted(s) ==> sol(s) == SolutionFields(sys, s) && env == SolutionEnv(sys)
    }

    /** What the solution says about s, by its environment. */
    lemma Reveal(s: Sym)
      requires Specified()
      ensures sol(s).curr.tri == TriOf(env, s) && sol(s).curr.val == ValOf(s, env)
      ensures s.typ.Unknown? ==> sol(s).curr == Value(TriOf(env, s), s.name)
      ensures env.modules == ModulesSym(sys.modulesVal)
      ensures StrOf(env, s) == if s.typ.Boolean? || s.typ.Tristate?
        then if sol(s).curr.tri == YES then "y" else if sol(s).curr.tri == NO || sys.modulesVal == NO then "n" else "m"
        else sol(s).curr.val
    {
      assert Wanted(s);
    }

    lemma RevealEquation(s: Sym)
      requires Specified() && s in sys.all
      ensures var (info, m) := (sys.graph(s), sys.modulesVal);
        && sol(s).visible == Visible(s, info, env, m) && sol(s).dirDep == DirDep(s, info, env, m)
        && sol(s).revDep == RevDep(s, info.revDep, env, m) && sol(s).implied == RevDep(s, info.implied, env, m)
        && sol(s).curr == Equation(s, info, sys.user(s), env, m)
    {
      assert Wanted(s);
      SolutionSatisfies(sys, s);
    }

    /** The fields of s are those of the solution. */
    ghost predicate Solved(s: Sym, f: Fields) {
      f.curr == sol(s).curr && (!s.typ.Unknown? ==> f == sol(s))
    }

    /** The visibility and the dependencies of s are those of the solution. */
    ghost predicate Seen(s: Sym, f: Fields) {
      f == sol(s).(curr := f.curr)
    }

    ghost predicate Inv()
      reads this
    {
      && Specified() && CONSTANTS <= valid <= sys.all <= fields.Keys && busy <= valid - CONSTANTS
      && (forall b :: b in busy ==> !b.typ.Unknown?)
      && forall s :: s in valid && s !in busy ==> Solved(s, fields[s])
    }

    ghost predicate Valid()
      reads this
    {
      Inv() && busy == {}
    }

    /** Everything that is being calculated has at least rank r. */
    ghost predicate BusyAbove(r: nat)
      reads this
    {
      forall b :: b in busy ==> sys.rank(b) >= r
    }

    /** The symbols are known and of lower rank than r. */
    ghost predicate Below(ds: set<Sym>, r: nat) {
      forall d :: d in ds ==> d in sys.all && sys.rank(d) < r
    }

    /** More symbols have become valid; nothing that was valid has changed. */
    twostate predicate Grown()
      reads this
    {
      && old(valid) <= valid && busy == old(busy)
      && forall s :: s in old(valid) ==> s in old(fields) && s in fields && fields[s] == old(fields)[s]
    }

    /** The same, except that s may have changed. */
    twostate predicate GrownBut(s: Sym)
      reads this
    {
      && old(valid) <= valid && busy == old(busy)
      && forall d :: d in old(valid) && d != s ==> d in old(fields) && d in fields && fields[d] == old(fields)[d]
    }

    /** s is being calculated, and everything else under way waits for it. */
    ghost predicate Calculating(s: Sym)
      reads this
    {
      && Inv() && s in busy && !s.typ.Unknown? && BusyAbove(sys.rank(s))
      && (forall d :: d in Deps(sys.graph(s)) ==> d in sys.all && sys.rank(d) < sys.rank(s))
    }

    /** sym_calc_value: afterwards s has the value of the solution, whatever was valid before and whatever
        calculation this one is part of. */
    method CalcValue(s: Sym)
      requires Inv() && s in sys.all && (!s.typ.Unknown? ==> BusyAbove(sys.rank(s) + 1))
      modifies this
      ensures Inv() && Grown() && s in valid && fields[s].curr == sol(s).curr
      decreases if s.typ.Unknown? then 0 else sys.rank(s) + 1, 11
    {
      if s in valid {
        return;
      }
      if s.typ.Unknown? {
        CalcUntyped(s);
      } else {
        CalcTyped(s);
      }
    }

    /** A symbol without a type, such as the constant of a comparison, has its name for its value. */
    method CalcUntyped(s: Sym)
      requires Inv() && s in sys.all && s !in valid && s.typ.Unknown?
      modifies this
      ensures Inv() && Grown() && s in valid && s in fields && Solved(s, fields[s])
    {
      valid := valid + {s};
      fields := fields[s := fields[s].(curr := Value(NO, s.name))];
      Reveal(s);
    }

    method CalcTyped(s: Sym)
      requires Inv() && s in sys.all && s !in valid && !s.typ.Unknown? && BusyAbove(sys.rank(s) + 1)
      modifies this
      ensures Inv() && Grown() && s in valid && s in fields && Solved(s, fields[s])
      decreases sys.rank(s) + 1, 10
    {
      valid, busy := valid + {s}, busy + {s};
      Started(s);
      CalcMarked(s);
      busy := busy - {s};
    }

    lemma Started(s: Sym)
      requires Inv() && s in busy && BusyAbove(sys.rank(s)) && !s.typ.Unknown?
      ensures Calculating(s)
    {
      forall d | d in Deps(sys.graph(s))
        ensures d in sys.all && sys.rank(d) < sys.rank(s)
      {
        assert Edge(sys.graph, s, d);
      }
    }

    /** The calculation of a symbol that has been marked as valid. */
    method CalcMarked(s: Sym)
      requires Calculating(s)
      modifies this
      ensures Inv() && GrownBut(s) && s in fields && Solved(s, fields[s])
      decreases sys.rank(s) + 1, 9
    {
      CalcVisibility(s);
      CalcCurrent(s);
    }

    /** From the visibility to the value of s. */
    method CalcCurrent(s: Sym)
      requires Calculating(s) && Seen(s, fields[s])
      modifies this
      ensures Inv() && GrownBut(s) && s in fields && Solved(s, fields[s])
      decreases sys.rank(s) + 1, 8
    {
      var boolean := s.typ.Boolean? || s.typ.Tristate?;
      // the value that a recursive call would see
      fields := fields[s := fields[s].(curr := Value(NO, if boolean then "n" else ""))];
      RevealEquation(s);
      if boolean {
        var t := CalcTri(s);
        fields := fields[s := fields[s].(curr := Value(t, "n"))];
      } else {
        var v := CalcString(s);
        v := ValidateRange(s, v);
        fields := fields[s := fields[s].(curr := Value(NO, v))];
      }
    }

    /** expr_calc_value: calculates the symbols of an expression when they are needed. */
    method CalcExpr(e: Expr, ghost r: nat) returns (v: Tri)
      requires Inv() && Below(Mentioned(e), r) && BusyAbove(r)
      modifies this
      ensures Inv() && Grown() && v == Eval(e, env)
      decreases r + 1, 0, e
    {
      match e
      case Symbol(s) =>
        CalcValue(s);
        Reveal(s);
        v := fields[s].curr.tri;
      case Compare(rel, a, b) =>
        CalcValue(a);
        CalcValue(b);
        Reveal(a);
        Reveal(b);
        var (x, y) := (StringValue(a), StringValue(b));
        v := FromBool(Holds(rel, CompareStrings(x, a.typ, y, b.typ)));
      case Not(a) =>
        v := CalcExpr(a, r);
        v := TriNot(v);
      case Bin(op, left, right) =>
        v := CalcExpr(left, r);
        var w := CalcExpr(right, r);
        v := ApplyOp(op, v, w);
    }

    method CalcDep(d: Dep, none: Tri, ghost r: nat) returns (v: Tri)
      requires Inv() && Below(MentionedDep(d), r) && BusyAbove(r)
      modifies this
      ensures Inv() && Grown() && v == if d.None? then none else Eval(d.value, env)
      decreases r + 1, 1
    {
      v := none;
      if d.Some? {
        v := CalcExpr(d.value, r);
      }
    }

    /** sym_get_string_value. */
    function StringValue(s: Sym): (v: string)
      requires Inv() && s in fields && fields[s].curr == sol(s).curr
      reads this
      ensures v == StrOf(env, s)
    {
      Reveal(s);
      var curr := fields[s].curr;
      if s.typ.Boolean? || s.typ.Tristate? then
        if curr.tri == YES then "y" else if curr.tri == NO || sys.modulesVal == NO then "n" else "m"
      else curr.val
    }

    /** The loop over the prompts. */
    method CalcPrompts(s: Sym) returns (tri: Tri)
      requires Calculating(s)
      modifies this
      ensures Calculating(s) && Grown() && tri == PromptValue(sys.graph(s).props, env)
      decreases sys.rank(s) + 1, 2
    {
      var ps := sys.graph(s).props;
      tri := NO;
      for i := 0 to |ps|
        invariant Calculating(s) && Grown()
        invariant TriOr(tri, PromptValue(ps[i..], env)) == PromptValue(ps, env)
      {
        assert ps[i..][1..] == ps[i + 1..];
        if IsPrompt(ps[i].kind) {
          PropMentioned(ps, i);
          var v := CalcDep(ps[i].visible, YES, sys.rank(s));
          tri := TriOr(tri, v);
        }
      }
    }

    /** The value of a dependency, m counted as y for symbols that cannot be m. */
    method CalcDependency(s: Sym, d: Dep, none: Tri) returns (v: Tri)
      requires Calculating(s) && MentionedDep(d) <= Deps(sys.graph(s))
      modifies this
      ensures Calculating(s) && Grown()
      ensures v == Promoted(if d.None? then none else Eval(d.value, env), s, sys.modulesVal)
      decreases sys.rank(s) + 1, 2
    {
      v := CalcDep(d, none, sys.rank(s));
      if v == MOD && BehavesBoolean(s, sys.modulesVal) {
        v := YES;
      }
    }

    /** sym_calc_visibility. */
    method CalcVisibility(s: Sym)
      requires Calculating(s)
      modifies this
      ensures Calculating(s) && GrownBut(s) && Seen(s, fields[s])
      decreases sys.rank(s) + 1, 5
    {
      var tri := CalcPrompts(s);
      if tri == MOD && (!s.typ.Tristate? || sys.modulesVal == NO) {
        tri := YES;
      }
      RevealEquation(s);
      fields := fields[s := fields[s].(visible := tri)];
      CalcDependencies(s);
    }

    method CalcDependencies(s: Sym)
      requires Calculating(s)
      requires fields[s].visible == sol(s).visible
      modifies this
      ensures Calculating(s) && GrownBut(s) && Seen(s, fields[s])
      decreases sys.rank(s) + 1, 4
    {
      var info := sys.graph(s);
      RevealEquation(s);
      var dir := CalcDependency(s, info.dirDep, YES);
      fields := fields[s := fields[s].(dirDep := dir)];
      var rev := CalcDependency(s, info.revDep, NO);
      fields := fields[s := fields[s].(revDep := rev)];
      var implied := CalcDependency(s, info.implied, NO);
      fields := fields[s := fields[s].(implied := implied)];
    }

    /** sym_get_default_prop and sym_get_range_prop. */
    method FindProp(s: Sym, kind: PropKind) returns (p: Option<(Property, Tri)>)
      requires Calculating(s) && (kind.Default? || kind.Range?)
      modifies this
      ensures Calculating(s) && Grown() && p == FirstProp(kind, sys.graph(s).props, env)
      ensures p.Some? ==> p.value.0.kind == kind && MentionedProp(p.value.0) <= Deps(sys.graph(s))
      ensures p.Some? && p.value.0.bounds.Some? ==>
        ConstantBound(p.value.0.bounds.value.0, sys.all) && ConstantBound(p.value.0.bounds.value.1, sys.all)
      decreases sys.rank(s) + 1, 2
    {
      var ps := sys.graph(s).props;
      for i := 0 to |ps|
        invariant Calculating(s) && Grown()
        invariant FirstProp(kind, ps[i..], env) == FirstProp(kind, ps, env)
      {
        assert ps[i..][1..] == ps[i + 1..];
        if ps[i].kind == kind {
          PropMentioned(ps, i);
          BoundsAt(ps, sys.all, i);
          var v := CalcDep(ps[i].visible, YES, sys.rank(s));
          if v != NO {
            return Some((ps[i], v));
          }
        }
      }
      p := None;
    }

    /** The value of a bool or tristate. */
    method CalcTri(s: Sym) returns (t: Tri)
      requires Calculating(s) && Seen(s, fields[s]) && (s.typ.Boolean? || s.typ.Tristate?)
      modifies this
      ensures Calculating(s) && Grown()
      ensures t == TriEquation(s, sys.graph(s), sys.user(s), env, sys.modulesVal)
      decreases sys.rank(s) + 1, 4
    {
      RevealEquation(s);
      t := NO;
      var user := sys.user(s);
      if fields[s].visible != NO && user.Some? {
        t := TriAnd(user.value.tri, fields[s].visible);
      } else {
        var p := FindProp(s, Default);
        if p.Some? {
          t := CalcDep(p.value.0.expr, YES, sys.rank(s));
          t := TriAnd(t, p.value.1);
        }
        if fields[s].implied != NO {
          t := TriOr(t, fields[s].implied);
          t := TriAnd(t, fields[s].dirDep);
        }
      }
      if fields[s].dirDep == NO && fields[s].revDep != NO {
        t := NO;
      } else {
        t := TriOr(t, fields[s].revDep);
      }
      if t == MOD && BehavesBoolean(s, sys.modulesVal) {
        t := YES;
      }
    }

    /** The value of a string, int or hex symbol before its range is enforced. */
    method CalcString(s: Sym) returns (v: string)
      requires Calculating(s) && Seen(s, fields[s])
      modifies this
      ensures Calculating(s) && Grown()
      ensures v == OwnString(s, sys.graph(s), sys.user(s), env, sys.modulesVal)
      decreases sys.rank(s) + 1, 4
    {
      RevealEquation(s);
      var user := sys.user(s);
      if fields[s].visible != NO && user.Some? {
        return user.value.val;
      }
      v := "";
      var p := FindProp(s, Default);
      if p.Some? && p.value.0.expr.Some? && p.value.0.expr.value.Symbol? {
        var d := p.value.0.expr.value.sym;
        assert d in MentionedDep(p.value.0.expr);
        CalcValue(d);
        Reveal(d);
        v := fields[d].curr.val;
      }
    }

    /** sym_validate_range. */
    method ValidateRange(s: Sym, v: string) returns (w: string)
      requires Calculating(s)
      modifies this
      ensures Calculating(s) && Grown()
      ensures w == InRange(s, v, sys.graph(s).props, env)
      decreases sys.rank(s) + 1, 4
    {
      w := v;
      if s.typ.Int? || s.typ.Hex? {
        var p := FindProp(s, Range);
        if p.Some? && p.value.0.bounds.Some? {
          w := ClampTo(s, v, p.value.0.bounds.value.0, p.value.0.bounds.value.1);
        }
      }
    }

    /** The bounds are calculated as well. */
    method ClampTo(s: Sym, v: string, lo: Sym, hi: Sym) returns (w: string)
      requires Calculating(s) && ConstantBound(lo, sys.all) && ConstantBound(hi, sys.all)
      modifies this
      ensures Calculating(s) && Grown()
      ensures w == Clamp(v, lo.name, hi.name, Base(s.typ))
      decreases sys.rank(s) + 1, 3
    {
      CalcValue(lo);
      Reveal(lo);
      var n := StrToLL(v, Base(s.typ)).0;
      w := fields[lo].curr.val;
      if n >= StrToLL(w, Base(s.typ)).0 {
        CalcValue(hi);
        Reveal(hi);
        w := fields[hi].curr.val;
        if n <= StrToLL(w, Base(s.typ)).0 {
          w := v;
        }
      }
    }

    /** The recalculation of any symbols in any order, whichever of them are already valid: each gets its value
        in the one solution of the equations. */
    method CalcAll(symbols: seq<Sym>)
      requires Valid() && forall s :: s in symbols ==> s in sys.all
      modifies this
      ensures Valid() && forall s :: s in symbols ==> s in valid && s in fields && fields[s].curr == sol(s).curr
    {
      for i := 0 to |symbols|
        invariant Valid() && forall s :: s in symbols[..i] ==> s in valid
      {
        CalcValue(symbols[i]);
        assert symbols[..i + 1] == symbols[..i] + [symbols[i]];
      }
      assert symbols[..|symbols|] == symbols;
    }
  }

  // ---------- what the equations mean ----------

  /** Reverse dependencies are a lower bound, unless the direct dependencies are not met: then a selected symbol is
      n. A user value is bounded by the visibility, unless more is selected. */
  lemma SelectForces(sys: System, s: Sym)
    requires Acyclic(sys) && s in sys.all && (s.typ.Boolean? || s.typ.Tristate?)
    ensures var (v, f) := (Solve(sys, s).tri, SolutionFields(sys, s));
      && (f.dirDep != NO || f.revDep == NO ==> v >= f.revDep)
      && (f.dirDep == NO && f.revDep != NO ==> v == NO)
      && (f.visible != NO && sys.user(s).Some? ==> v <= TriOr(f.visible, f.revDep))
  {
    SolutionSatisfies(sys, s);
  }

  // ---------- setting a value ----------

  /** sym_tristate_within_range, outside choices. */
  predicate WithinRange(s: Sym, f: Fields, modulesVal: Tri, val: Tri) {
    && f.visible != NO
    && (s.typ.Boolean? || s.typ.Tristate?)
    && !(BehavesBoolean(s, modulesVal) && val == MOD)
    && f.visible > f.revDep
    && f.revDep <= val <= f.visible
  }

  /** The system in which s has a user value. */
  function WithUser(sys: System, s: Sym, u: User): System {
    var before := sys.user;
    sys.(user := (t: Sym) => if t == s then Some(u) else before(t))
  }

  lemma {:induction false} LowerRanksKeepValues(sys: System, s: Sym, u: User, d: Sym)
    requires Acyclic(sys) && Acyclic(WithUser(sys, s, u)) && sys.rank(d) < sys.rank(s) && d in sys.all
    ensures Solve(WithUser(sys, s, u), d) == Solve(sys, d)
    decreases sys.rank(d)
  {
    var sys' := WithUser(sys, s, u);
    var (e1, e2) := (EnvBelow(sys, sys.rank(d)), EnvBelow(sys', sys.rank(d)));
    forall x | x in Deps(sys.graph(d))
      ensures TriOf(e1, x) == TriOf(e2, x) && StrOf(e1, x) == StrOf(e2, x) && ValOf(x, e1) == ValOf(x, e2)
    {
      assert Edge(sys.graph, d, x);
      LowerRanksKeepValues(sys, s, u, x);
    }
    EquationAgrees(d, sys.graph(d), sys.user(d), e1, e2, sys.modulesVal);
  }

  /** The new value of s follows from its fields before the user value was set. */
  lemma SetEquation(sys: System, s: Sym, u: User)
    requires Acyclic(sys) && s in sys.all && (s.typ.Boolean? || s.typ.Tristate?)
    ensures Acyclic(WithUser(sys, s, u))
    ensures var f := SolutionFields(sys, s);
      Solve(WithUser(sys, s, u), s).tri ==
      if f.visible == NO then Solve(sys, s).tri
      else Promoted(Selected(TriAnd(u.tri, f.visible), f.dirDep, f.revDep), s, sys.modulesVal)
  {
    var sys' := WithUser(sys, s, u);
    var (e1, e2) := (SolutionEnv(sys), EnvBelow(sys', sys.rank(s)));
    forall x | x in Deps(sys.graph(s))
      ensures TriOf(e1, x) == TriOf(e2, x) && StrOf(e1, x) == StrOf(e2, x) && ValOf(x, e1) == ValOf(x, e2)
    {
      assert Edge(sys.graph, s, x);
      LowerRanksKeepValues(sys, s, u, x);
    }
    EquationAgrees(s, sys.graph(s), sys'.user(s), e1, e2, sys.modulesVal);
    SolutionSatisfies(sys, s);
  }

  /** A value within range is honoured exactly when no unmet direct dependency suppresses a selected symbol; in
      particular whenever being visible implies that the direct dependencies are met. */
  lemma SetHonoured(sys: System, s: Sym, u: User)
    requires Acyclic(sys) && s in sys.all && WithinRange(s, SolutionFields(sys, s), sys.modulesVal, u.tri)
    ensures Acyclic(WithUser(sys, s, u))
    ensures var f := SolutionFields(sys, s);
      Solve(WithUser(sys, s, u), s).tri == u.tri <==> !(f.dirDep == NO && f.revDep != NO)
  {
    SetEquation(sys, s, u);
  }

  /** Setting a symbol to the value it has is accepted without a recalculation. The value is the one that a
      recalculation would give exactly when it does not exceed the visibility, unless it is forced. */
  lemma SetSameValue(sys: System, s: Sym, u: User)
    requires Acyclic(sys) && s in sys.all && (s.typ.Boolean? || s.typ.Tristate?) && u.tri == Solve(sys, s).tri
    ensures Acyclic(WithUser(sys, s, u))
    ensures var f := SolutionFields(sys, s);
      Solve(WithUser(sys, s, u), s).tri == u.tri <==>
        f.visible == NO || u.tri <= f.visible || u.tri == f.revDep
  {
    SetEquation(sys, s, u);
    SolutionSatisfies(sys, s);
  }

  // ---------- two small configurations ----------

  const SMALL: Sym := Sym(3, "S", Tristate, false)

  /** A configuration of one tristate, next to the constants, with modules on and without user values. */
  ghost function Small(info: SymInfo): System {
    System((s: Sym) => if s == SMALL then info else SymInfo(None, None, None, []),
           CONSTANTS + {SMALL}, (s: Sym) => None, YES, (s: Sym) => if s == SMALL then 1 else 0)
  }

  lemma SmallIsAcyclic(info: SymInfo)
    requires Deps(info) <= CONSTANTS && ConstantBounds(info.props, CONSTANTS + {SMALL})
    ensures Acyclic(Small(info))
  {
    var sys := Small(info);
    forall s, d | s in sys.all && Edge(sys.graph, s, d)
      ensures d in sys.all && sys.rank(d) < sys.rank(s)
    {
      assert s == SMALL && d in CONSTANTS;
    }
  }

  /** Visible up to m, with the default y. */
  function DefaultAbovePrompt(): SymInfo {
    SymInfo(None, None, None,
            [Property(Prompt, Some(Symbol(SYM_MOD)), None, None), Property(Default, None, Some(Symbol(SYM_YES)), None)])
  }

  /** The symbol is y by its default. Setting it to y is accepted, and gives m at the next recalculation. */
  lemma SameValueLost()
    ensures var sys := Small(DefaultAbovePrompt());
      && Acyclic(sys) && Solve(sys, SMALL).tri == YES && Accepts(sys, SMALL, YES)
      && Acyclic(WithUser(sys, SMALL, User(YES, "")))
      && Solve(WithUser(sys, SMALL, User(YES, "")), SMALL).tri == MOD
  {
    var info := DefaultAbovePrompt();
    var (prompt, dflt) := (info.props[0], info.props[1]);
    var sys := Small(info);
    assert info.props[1..] == [dflt] && info.props[1..][1..] == [];
    assert Deps(info) == {SYM_MOD, SYM_YES};
    SmallIsAcyclic(info);
    var env := SolutionEnv(sys);
    assert PromptValue(info.props, env) == MOD;
    assert FirstProp(Default, info.props, env) == Some((dflt, YES));
    SolutionSatisfies(sys, SMALL);
    SetEquation(sys, SMALL, User(YES, ""));
  }

  /** Selected by m, and visible although its direct dependency is n: what a symbol has that is defined twice, once
      without dependencies. */
  function VisibleButUnmet(): SymInfo {
    SymInfo(Some(Symbol(SYM_NO)), Some(Symbol(SYM_MOD)), None, [Property(Prompt, None, None, None)])
  }

  /** Setting the symbol to y is within range, and gives n. */
  lemma WithinRangeLost()
    ensures var sys := Small(VisibleButUnmet());
      && Acyclic(sys) && WithinRange(SMALL, SolutionFields(sys, SMALL), sys.modulesVal, YES)
      && Acyclic(WithUser(sys, SMALL, User(YES, "")))
      && Solve(WithUser(sys, SMALL, User(YES, "")), SMALL).tri == NO
  {
    var info := VisibleButUnmet();
    var sys := Small(info);
    assert info.props[1..] == [];
    assert Deps(info) == {SYM_NO, SYM_MOD};
    SmallIsAcyclic(info);
    assert PromptValue(info.props, SolutionEnv(sys)) == YES;
    SetEquation(sys, SMALL, User(YES, ""));
  }

  // ---------- the program between changes ----------

  /** A new value is accepted and then honoured. */
  ghost predicate Honours(sys: System, s: Sym, val: Tri, sys': System)
    requires Acyclic(sys)
  {
    var f := SolutionFields(sys, s);
    Acyclic(sys') && (f.dirDep != NO || f.revDep == NO ==> Solve(sys', s).tri == val)
  }

  ghost predicate Accepts(sys: System, s: Sym, val: Tri)
    requires Acyclic(sys)
  {
    Solve(sys, s).tri == val || WithinRange(s, SolutionFields(sys, s), sys.modulesVal, val)
  }

  lemma AcceptedHonoured(sys: System, s: Sym, u: User)
    requires Acyclic(sys) && s in sys.all && (s.typ.Boolean? || s.typ.Tristate?) && Accepts(sys, s, u.tri)
    ensures Solve(sys, s).tri != u.tri ==> Honours(sys, s, u.tri, WithUser(sys, s, u))
  {
    if Solve(sys, s).tri != u.tri {
      SetHonoured(sys, s, u);
    }
  }

  /** The configuration program between two changes: the user values, and the calculated values, which may still
      be those from before the last change. */
  class Session {
    var system: System
    var solver: Solver

    constructor (initial: System, leftover: map<Sym, Fields>)
      requires Acyclic(initial) && CONSTANTS <= initial.all <= leftover.Keys
      ensures Valid() && system == solver.sys == initial && fresh(solver)
    {
      system := initial;
      solver := new Solver(initial, leftover);
    }

    ghost predicate Valid()
      reads this, solver
    {
      && solver.Valid() && Acyclic(system)
      && system.graph == solver.sys.graph && system.all == solver.sys.all && system.modulesVal == solver.sys.modulesVal
    }

    /** sym_set_tristate_value, outside choices. A changed value invalidates everything that was calculated, and
        the MODULES symbol is calculated again. */
    method SetTristateValue(s: Sym, val: Tri, modules: Sym) returns (ok: bool)
      requires Valid() && s in solver.valid && modules in system.all && (s.typ.Boolean? || s.typ.Tristate?)
      modifies this
      ensures Valid()
      ensures ok <==> Accepts(old(solver.sys), s, val)
      ensures !ok ==> solver == old(solver) && system == old(system)
      ensures ok ==> system.user(s).Some? && system.user(s).value.tri == val
      ensures ok ==> forall t :: t != s ==> system.user(t) == old(system).user(t)
      ensures ok && Solve(old(solver.sys), s).tri == val ==> solver == old(solver)
      ensures ok && Solve(old(solver.sys), s).tri != val ==> solver.sys == system
      ensures ok && Solve(old(solver.sys), s).tri != val && old(solver.sys == system) ==>
        Honours(old(system), s, val, system)
    {
      var f := solver.fields[s];
      Current(s);
      var changed := f.curr.tri != val;
      if changed && !WithinRange(s, f, solver.sys.modulesVal, val) {
        return false;
      }
      ok := true;
      Enter(s, val);
      if changed {
        Invalidate(modules);
      }
    }

    lemma Current(s: Sym)
      requires Valid() && s in solver.valid && !s.typ.Unknown?
      ensures s in solver.fields && solver.fields[s] == SolutionFields(solver.sys, s)
    {
      assert Wanted(s);
    }

    /** Stores the user value. */
    method Enter(s: Sym, val: Tri)
      requires Valid() && s in system.all && (s.typ.Boolean? || s.typ.Tristate?)
      modifies this`system
      ensures Valid() && exists v :: system == WithUser(old(system), s, User(val, v))
      ensures Accepts(old(system), s, val) && Solve(old(system), s).tri != val ==> Honours(old(system), s, val, system)
    {
      var before := system.user(s);
      var u := User(val, if before.Some? then before.value.val else "");
      SetEquation(system, s, u);
      if Accepts(system, s, val) {
        AcceptedHonoured(system, s, u);
      }
      system := WithUser(system, s, u);
    }

    /** sym_clear_all_valid. */
    method Invalidate(modules: Sym)
      requires Valid() && modules in system.all
      modifies this`solver
      ensures Valid() && fresh(solver) && solver.sys == system
    {
      solver := new Solver(system, solver.fields);
      solver.CalcValue(modules);
    }
  }
}
