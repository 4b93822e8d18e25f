/** sym_calc_value: the memoised evaluation of all symbols, without choices. */
module SymSolver {
  import opened Wrappers
  import opened CStrings
  import opened Exprs
  import opened SymDeps

  /** curr: the tristate value and the string value of a symbol. */
  datatype Value = Value(tri: Tri, val: string)

  /** A user value, if one has been set. */
  datatype User = User(tri: Tri, val: string)

  /** A configuration: what does not change while values are calculated. modulesVal is the settled value of the
      MODULES symbol. rank witnesses that the dependencies are acyclic. */
  datatype System = System(
    graph: Graph, all: set<Sym>, user: Sym -> Option<User>, modulesVal: Tri, ghost rank: Sym -> nat)

  /** Dependencies lie in the system and have a lower rank; range bounds are constants. */
  ghost predicate Acyclic(sys: System) {
    && (forall s, d :: s in sys.all && Edge(sys.graph, s, d) ==> d in sys.all && sys.rank(d) < sys.rank(s))
    && (forall s :: s in sys.all ==> ConstantBounds(sys.graph(s).props, sys.all))
  }

  predicate ConstantBounds(ps: seq<Property>, all: set<Sym>) {
    ps != [] ==>
      && (ps[0].bounds.Some? ==> ConstantBound(ps[0].bounds.value.0, all) && ConstantBound(ps[0].bounds.value.1, all))
      && ConstantBounds(ps[1..], all)
  }

  predicate ConstantBound(s: Sym, all: set<Sym>) {
    s in all && s.typ.Unknown?
  }

  /** The position of a symbol in a list, or the length of the list. */
  ghost function Position(order: seq<Sym>, s: Sym): (r: nat)
    ensures r <= |order| && (r < |order| ==> order[r] == s) && (r == |order| <==> s !in order)
    ensures forall i :: 0 <= i < |order| && order[i] == s ==> r <= i
  {
    if order == [] then 0 else if order[0] == s then 0 else 1 + Position(order[1..], s)
  }

  /** When the search for recursive dependencies has found none, the order in which it finished the symbols ranks
      them, so that the configuration can be solved. */
  lemma CheckedIsAcyclic(sys: System, order: seq<Sym>)
    requires Topological(sys.graph, order) && Elems(order) == sys.all
    requires forall s :: s in sys.all ==> ConstantBounds(sys.graph(s).props, sys.all)
    ensures Acyclic(sys.(rank := (s: Sym) => Position(order, s)))
  {
    forall s, d | s in sys.all && Edge(sys.graph, s, d)
      ensures d in sys.all && Position(order, d) < Position(order, s)
    {
      var i := Position(order, s);
      TopologicalAt(sys.graph, order, i, d);
      var j :| 0 <= j < i && order[..i][j] == d;
      assert d in Elems(order);
    }
  }

  // ---------- the equations ----------

  predicate IsPrompt(k: PropKind) {
    k.Prompt? || k.MenuProp? || k.Comment?
  }

  /** sym_get_type outside choices. */
  predicate BehavesBoolean(s: Sym, modulesVal: Tri) {
    s.typ.Boolean? || (s.typ.Tristate? && modulesVal == NO)
  }

  /** m counts as y for symbols that cannot be m. */
  function Promoted(t: Tri, s: Sym, modulesVal: Tri): Tri {
    if t == MOD && BehavesBoolean(s, modulesVal) then YES else t
  }

  /** The prompt loop of sym_calc_visibility. */
  function PromptValue(ps: seq<Property>, env: Env): Tri {
    if ps == [] then NO
    else TriOr(if IsPrompt(ps[0].kind) then EvalDep(ps[0].visible, env) else NO, PromptValue(ps[1..], env))
  }

  /** The promotion at the end of the prompt loop. */
  function Promote(v: Tri, typ: SymType, modulesVal: Tri): Tri {
    if v == MOD && (!typ.Tristate? || modulesVal == NO) then YES else v
  }

  function Visible(s: Sym, info: SymInfo, env: Env, modulesVal: Tri): Tri {
    Promote(PromptValue(info.props, env), s.typ, modulesVal)
  }

  function DirDep(s: Sym, info: SymInfo, env: Env, modulesVal: Tri): Tri {
    Promoted(EvalDep(info.dirDep, env), s, modulesVal)
  }

  /** A missing reverse dependency means n. */
  function RevDep(s: Sym, d: Dep, env: Env, modulesVal: Tri): Tri {
    Promoted(if d.None? then NO else Eval(d.value, env), s, modulesVal)
  }

  /** sym_get_default_prop and sym_get_range_prop: the first property of a kind whose condition is not n, with
      the value of the condition. */
  function FirstProp(kind: PropKind, ps: seq<Property>, env: Env): Option<(Property, Tri)> {
    if ps == [] then None
    else if ps[0].kind == kind && EvalDep(ps[0].visible, env) != NO then Some((ps[0], EvalDep(ps[0].visible, env)))
    else FirstProp(kind, ps[1..], env)
  }

  /** The default value of a bool or tristate, limited by the condition of the default. */
  function DefaultTri(ps: seq<Property>, env: Env): Tri {
    match FirstProp(Default, ps, env)
    case None => NO
    case Some((p, v)) => TriAnd(EvalDep(p.expr, env), v)
  }

  /** The value before reverse dependencies are taken into account. */
  function OwnTri(user: Option<User>, visible: Tri, dir: Tri, implied: Tri, dflt: Tri): Tri {
    if visible != NO && user.Some? then TriAnd(user.value.tri, visible)
    else if implied != NO then TriAnd(TriOr(dflt, implied), dir)
    else dflt
  }

  /** calc_newval: select. */
  function Selected(own: Tri, dir: Tri, rev: Tri): Tri {
    if dir == NO && rev != NO then NO else TriOr(own, rev)
  }

  function TriEquation(s: Sym, info: SymInfo, user: Option<User>, env: Env, modulesVal: Tri): Tri {
    var visible := Visible(s, info, env, modulesVal);
    var dir := DirDep(s, info, env, modulesVal);
    var rev := RevDep(s, info.revDep, env, modulesVal);
    var implied := RevDep(s, info.implied, env, modulesVal);
    Promoted(Selected(OwnTri(user, visible, dir, implied, DefaultTri(info.props, env)), dir, rev), s, modulesVal)
  }

  /** curr.val of a symbol, as sym_calc_value leaves it. */
  function ValOf(s: Sym, env: Env): string {
    if s.typ.Unknown? then s.name
    else if s.typ.Boolean? || s.typ.Tristate? then "n"
    else env.str(s)
  }

  /** The default value of a string, int or hex symbol: that of the symbol that the default names. */
  function DefaultString(ps: seq<Property>, env: Env): string {
    var p := FirstProp(Default, ps, env);
    if p.Some? && p.value.0.expr.Some? && p.value.0.expr.value.Symbol?
    then ValOf(p.value.0.expr.value.sym, env)
    else ""
  }

  /** The value of a string, int or hex symbol before its range is enforced. */
  function OwnString(s: Sym, info: SymInfo, user: Option<User>, env: Env, modulesVal: Tri): string {
    if Visible(s, info, env, modulesVal) != NO && user.Some? then user.value.val
    else DefaultString(info.props, env)
  }

  function Base(typ: SymType): nat { if typ.Int? then 10 else 16 }

  /** A number written in a base, moved to the nearer bound when it lies outside of the range. */
  function Clamp(v: string, lo: string, hi: string, base: nat): string {
    var n := StrToLL(v, base).0;
    if n < StrToLL(lo, base).0 then lo else if n <= StrToLL(hi, base).0 then v else hi
  }

  /** sym_validate_range, with constant bounds. */
  function InRange(s: Sym, v: string, ps: seq<Property>, env: Env): string {
    if !s.typ.Int? && !s.typ.Hex? then v
    else
      var p := FirstProp(Range, ps, env);
      if p.None? || p.value.0.bounds.None? then v
      else Clamp(v, p.value.0.bounds.value.0.name, p.value.0.bounds.value.1.name, Base(s.typ))
  }

  /** The dependency equation of a symbol: its value from the values of the symbols it depends on. */
  function Equation(s: Sym, info: SymInfo, user: Option<User>, env: Env, modulesVal: Tri): Value {
    match s.typ
    case Unknown => Value(TriOf(env, s), s.name)
    case Boolean => Value(TriEquation(s, info, user, env, modulesVal), "n")
    case Tristate => Value(TriEquation(s, info, user, env, modulesVal), "n")
    case _ => Value(NO, InRange(s, OwnString(s, info, user, env, modulesVal), info.props, env))
  }

  /** MODULES stands for its settled value. */
  function ModulesSym(modulesVal: Tri): Sym {
    if modulesVal == NO then SYM_NO else SYM_YES
  }

  ghost function EnvOf(v: Sym -> Value, modulesVal: Tri): Env {
    Env((s: Sym) => v(s).tri, (s: Sym) => v(s).val, ModulesSym(modulesVal))
  }

  // ---------- the solution ----------

  ghost function Solve(sys: System, s: Sym): Value
    requires Acyclic(sys)
    decreases sys.rank(s), 1
  {
    Equation(s, sys.graph(s), sys.user(s), EnvBelow(sys, sys.rank(s)), sys.modulesVal)
  }

  /** The values of the symbols of rank below r. */
  ghost function EnvBelow(sys: System, r: nat): Env
    requires Acyclic(sys)
    decreases r, 0
  {
    EnvOf((d: Sym) => if sys.rank(d) < r then Solve(sys, d) else Value(NO, ""), sys.modulesVal)
  }

  /** The values of all symbols. */
  ghost function SolutionEnv(sys: System): Env
    requires Acyclic(sys)
  {
    EnvOf((d: Sym) => Solve(sys, d), sys.modulesVal)
  }

  /** Two environments agree on the value of a symbol. */
  ghost predicate AgreeOn(e1: Env, e2: Env, ds: set<Sym>) {
    && e1.modules == e2.modules && e1.modules in {SYM_NO, SYM_YES}
    && forall d :: d in ds ==> TriOf(e1, d) == TriOf(e2, d) && StrOf(e1, d) == StrOf(e2, d) && ValOf(d, e1) == ValOf(d, e2)
  }

  lemma {:induction false} EvalAgrees(e: Expr, e1: Env, e2: Env)
    requires AgreeOn(e1, e2, Mentioned(e))
    ensures Eval(e, e1) == Eval(e, e2)
  {
    match e
    case Symbol(s) => assert s in Mentioned(e);
    case Compare(_, l, r) => assert l in Mentioned(e) && r in Mentioned(e);
    case Not(a) => EvalAgrees(a, e1, e2);
    case Bin(_, l, r) =>
      EvalAgrees(l, e1, e2);
      EvalAgrees(r, e1, e2);
  }

  lemma EvalDepAgrees(d: Dep, e1: Env, e2: Env)
    requires AgreeOn(e1, e2, MentionedDep(d))
    ensures d.Some? ==> Eval(d.value, e1) == Eval(d.value, e2)
    ensures EvalDep(d, e1) == EvalDep(d, e2)
  {
    if d.Some? {
      EvalAgrees(d.value, e1, e2);
    }
  }

  lemma {:induction false} PropsAgree(ps: seq<Property>, e1: Env, e2: Env)
    requires AgreeOn(e1, e2, MentionedProps(ps))
    ensures PromptValue(ps, e1) == PromptValue(ps, e2)
    ensures FirstProp(Default, ps, e1) == FirstProp(Default, ps, e2)
    ensures FirstProp(Range, ps, e1) == FirstProp(Range, ps, e2)
    ensures var p := FirstProp(Default, ps, e1); p.Some? ==> MentionedDep(p.value.0.expr) <= MentionedProps(ps)
  {
    if ps != [] {
      PropsAgree(ps[1..], e1, e2);
      if !(ps[0].kind.ChoiceProp? || ps[0].kind.Select? || ps[0].kind.Imply?) {
        EvalDepAgrees(ps[0].visible, e1, e2);
      }
    }
  }

  lemma AgreeOnPart(e1: Env, e2: Env, ds: set<Sym>, part: set<Sym>)
    requires AgreeOn(e1, e2, ds) && part <= ds
    ensures AgreeOn(e1, e2, part)
  {
  }

  lemma InfoAgrees(info: SymInfo, e1: Env, e2: Env)
    requires AgreeOn(e1, e2, Deps(info))
    ensures AgreeOn(e1, e2, MentionedProps(info.props))
    ensures EvalDep(info.dirDep, e1) == EvalDep(info.dirDep, e2)
    ensures info.revDep.Some? ==> Eval(info.revDep.value, e1) == Eval(info.revDep.value, e2)
    ensures info.implied.Some? ==> Eval(info.implied.value, e1) == Eval(info.implied.value, e2)
    ensures PromptValue(info.props, e1) == PromptValue(info.props, e2)
  {
    AgreeOnPart(e1, e2, Deps(info), MentionedDep(info.dirDep));
    AgreeOnPart(e1, e2, Deps(info), MentionedDep(info.revDep));
    AgreeOnPart(e1, e2, Deps(info), MentionedDep(info.implied));
    AgreeOnPart(e1, e2, Deps(info), MentionedProps(info.props));
    EvalDepAgrees(info.dirDep, e1, e2);
    EvalDepAgrees(info.revDep, e1, e2);
    EvalDepAgrees(info.implied, e1, e2);
    PropsAgree(info.props, e1, e2);
  }

  lemma DefaultsAgree(ps: seq<Property>, e1: Env, e2: Env)
    requires AgreeOn(e1, e2, MentionedProps(ps))
    ensures DefaultTri(ps, e1) == DefaultTri(ps, e2)
    ensures DefaultString(ps, e1) == DefaultString(ps, e2)
  {
    PropsAgree(ps, e1, e2);
    var p := FirstProp(Default, ps, e1);
    if p.Some? {
      var d := p.value.0.expr;
      AgreeOnPart(e1, e2, MentionedProps(ps), MentionedDep(d));
      EvalDepAgrees(d, e1, e2);
      if d.Some? && d.value.Symbol? {
        assert d.value.sym in MentionedDep(d);
      }
    }
  }

  /** The equation of a symbol only looks at its dependencies. */
  lemma EquationAgrees(s: Sym, info: SymInfo, user: Option<User>, e1: Env, e2: Env, modulesVal: Tri)
    requires AgreeOn(e1, e2, Deps(info))
    ensures Equation(s, info, user, e1, modulesVal) == Equation(s, info, user, e2, modulesVal)
  {
    InfoAgrees(info, e1, e2);
    DefaultsAgree(info.props, e1, e2);
    PropsAgree(info.props, e1, e2);
    assert Visible(s, info, e1, modulesVal) == Visible(s, info, e2, modulesVal);
    if s.typ.Unknown? {
      assert TriOf(e1, s) == TriOf(e2, s);
    } else if s.typ.Boolean? || s.typ.Tristate? {
      assert TriEquation(s, info, user, e1, modulesVal) == TriEquation(s, info, user, e2, modulesVal);
    } else {
      var v := OwnString(s, info, user, e1, modulesVal);
      assert v == OwnString(s, info, user, e2, modulesVal);
      assert InRange(s, v, info.props, e1) == InRange(s, v, info.props, e2);
    }
  }

  /** The solution satisfies every equation. */
  lemma SolutionSatisfies(sys: System, s: Sym)
    requires Acyclic(sys) && s in sys.all
    ensures Solve(sys, s) == Equation(s, sys.graph(s), sys.user(s), SolutionEnv(sys), sys.modulesVal)
  {
    var below, full := EnvBelow(sys, sys.rank(s)), SolutionEnv(sys);
    forall d | d in Deps(sys.graph(s))
      ensures TriOf(below, d) == TriOf(full, d) && StrOf(below, d) == StrOf(full, d) && ValOf(d, below) == ValOf(d, full)
    {
      assert Edge(sys.graph, s, d);
    }
    EquationAgrees(s, sys.graph(s), sys.user(s), below, full, sys.modulesVal);
  }

  ghost predicate Satisfies(sys: System, v: Sym -> Value) {
    forall s :: s in sys.all ==> v(s) == Equation(s, sys.graph(s), sys.user(s), EnvOf(v, sys.modulesVal), sys.modulesVal)
  }

  /** Nothing else does. */
  lemma {:induction false} SolutionUnique(sys: System, v: Sym -> Value, s: Sym)
    requires Acyclic(sys) && Satisfies(sys, v) && s in sys.all
    ensures v(s) == Solve(sys, s)
    decreases sys.rank(s)
  {
    var env, full := EnvOf(v, sys.modulesVal), SolutionEnv(sys);
    forall d | d in Deps(sys.graph(s))
      ensures TriOf(env, d) == TriOf(full, d) && StrOf(env, d) == StrOf(full, d) && ValOf(d, env) == ValOf(d, full)
    {
      assert Edge(sys.graph, s, d);
      SolutionUnique(sys, v, d);
    }
    EquationAgrees(s, sys.graph(s), sys.user(s), env, full, sys.modulesVal);
    SolutionSatisfies(sys, s);
  }

  /** The typing that the expression rewrites rely on: a bool is never m, nothing is m when modules are off. */
  lemma SolutionTyped(sys: System)
    requires Acyclic(sys)
    ensures Typed(SolutionEnv(sys))
  {
    var env := SolutionEnv(sys);
    forall s: Sym | s.typ.Boolean?
      ensures env.tri(s) != MOD
    {
      assert env.tri(s) == Solve(sys, s).tri;
    }
    if TriOf(env, env.modules) == NO {
      forall s: Sym | s.typ.Tristate?
        ensures env.tri(s) != MOD
      {
        assert env.tri(s) == Solve(sys, s).tri;
      }
    }
  }
}
