/** What the value of a symbol is, in terms of its properties: the laws that the equations amount to. */
module SymLaws {
  import opened Wrappers
  import opened CStrings
  import opened Exprs
  import opened SymDeps
  import opened SymSolver
  import opened SymCalc

  /** The k-th property is the first of its kind whose condition is not n; k is the number of all if there is none. */
  predicate FirstOf(kind: PropKind, ps: seq<Property>, env: Env, k: nat) {
    && k <= |ps|
    && (k < |ps| ==> ps[k].kind == kind && EvalDep(ps[k].visible, env) != NO)
    && forall i :: 0 <= i < k ==> ps[i].kind != kind || EvalDep(ps[i].visible, env) == NO
  }

  lemma {:induction false} FirstPropAt(kind: PropKind, ps: seq<Property>, env: Env, k: nat)
    requires FirstOf(kind, ps, env, k)
    ensures FirstProp(kind, ps, env) == if k == |ps| then None else Some((ps[k], EvalDep(ps[k].visible, env)))
  {
    if k > 0 {
      assert forall i :: 0 <= i < k - 1 ==> ps[1..][i] == ps[i + 1];
      FirstPropAt(kind, ps[1..], env, k - 1);
    }
  }

  /** t, or y in its place for a symbol that cannot be m. */
  predicate UpTo(v: Tri, t: Tri, s: Sym, modulesVal: Tri) {
    v == t || (v == YES && t == MOD && (s.typ.Boolean? || modulesVal == NO))
  }

  predicate IsLogical(sys: System, s: Sym) {
    s in sys.all && (s.typ.Boolean? || s.typ.Tristate?)
  }

  /** A selected symbol whose direct dependencies are not met. */
  predicate Suppressed(f: Fields) {
    f.dirDep == NO && f.revDep != NO
  }

  // ---------- the four fields ----------

  predicate HasPrompt(p: Property, env: Env, t: Tri) {
    (p.kind.Prompt? || p.kind.MenuProp? || p.kind.Comment?) && EvalDep(p.visible, env) == t
  }

  /** The greatest condition of a prompt. */
  ghost predicate Greatest(ps: seq<Property>, env: Env, t: Tri) {
    && (forall i, u: Tri :: 0 <= i < |ps| && HasPrompt(ps[i], env, u) ==> u <= t)
    && (t != NO ==> exists i :: 0 <= i < |ps| && HasPrompt(ps[i], env, t))
  }

  lemma {:induction false} PromptValueGreatest(ps: seq<Property>, env: Env)
    ensures Greatest(ps, env, PromptValue(ps, env))
  {
    if ps != [] {
      PromptValueGreatest(ps[1..], env);
      var (t, rest) := (PromptValue(ps, env), PromptValue(ps[1..], env));
      assert forall i :: 0 < i < |ps| ==> ps[i] == ps[1..][i - 1];
      if t != NO {
        if t == rest {
          var i :| 0 <= i < |ps[1..]| && HasPrompt(ps[1..][i], env, t);
          assert HasPrompt(ps[i + 1], env, t);
        } else {
          assert HasPrompt(ps[0], env, t);
        }
      }
    }
  }

  /** The visibility is the greatest prompt condition; a symbol that cannot be m is visible as y instead. */
  lemma VisibleIs(sys: System, s: Sym, t: Tri)
    requires Acyclic(sys) && IsLogical(sys, s) && Greatest(sys.graph(s).props, SolutionEnv(sys), t)
    ensures var v := SolutionFields(sys, s).visible;
      UpTo(v, t, s, sys.modulesVal) && (v == MOD ==> s.typ.Tristate? && sys.modulesVal != NO)
  {
    var (ps, env) := (sys.graph(s).props, SolutionEnv(sys));
    PromptValueGreatest(ps, env);
    OneGreatest(ps, env, t, PromptValue(ps, env));
  }

  lemma OneGreatest(ps: seq<Property>, env: Env, t: Tri, u: Tri)
    requires Greatest(ps, env, t) && Greatest(ps, env, u)
    ensures t == u
  {
    if t != NO {
      var i :| 0 <= i < |ps| && HasPrompt(ps[i], env, t);
    }
    if u != NO {
      var i :| 0 <= i < |ps| && HasPrompt(ps[i], env, u);
    }
  }

  /** A missing direct dependency is y, missing reverse dependencies are n. */
  lemma DependenciesAre(sys: System, s: Sym)
    requires Acyclic(sys) && IsLogical(sys, s)
    ensures var (f, i, env, m) := (SolutionFields(sys, s), sys.graph(s), SolutionEnv(sys), sys.modulesVal);
      && UpTo(f.dirDep, if i.dirDep.None? then YES else Eval(i.dirDep.value, env), s, m)
      && UpTo(f.revDep, if i.revDep.None? then NO else Eval(i.revDep.value, env), s, m)
      && UpTo(f.implied, if i.implied.None? then NO else Eval(i.implied.value, env), s, m)
      && (s.typ.Boolean? || m == NO ==> f.dirDep != MOD && f.revDep != MOD && f.implied != MOD)
  {
  }

  // ---------- bools and tristates ----------

  /** A user value is in effect while the symbol is visible: it is limited by the visibility, and only select gives
      more. */
  lemma UserValue(sys: System, s: Sym)
    requires Acyclic(sys) && IsLogical(sys, s) && sys.user(s).Some?
    ensures var (v, f) := (Solve(sys, s).tri, SolutionFields(sys, s));
      f.visible != NO && !Suppressed(f) ==>
        UpTo(v, TriOr(TriAnd(sys.user(s).value.tri, f.visible), f.revDep), s, sys.modulesVal)
  {
    SolutionSatisfies(sys, s);
  }

  /** The value of the k-th property as a default, limited by its condition; n without one. */
  function DefaultAt(ps: seq<Property>, env: Env, k: nat): Tri
    requires k <= |ps|
  {
    if k == |ps| then NO else TriAnd(EvalDep(ps[k].expr, env), EvalDep(ps[k].visible, env))
  }

  /** Without a user value in effect, and nothing selected or implied, the first default that applies is the value. */
  lemma DefaultValue(sys: System, s: Sym, k: nat)
    requires Acyclic(sys) && IsLogical(sys, s) && FirstOf(Default, sys.graph(s).props, SolutionEnv(sys), k)
    requires var f := SolutionFields(sys, s);
      (f.visible == NO || sys.user(s).None?) && f.revDep == NO && f.implied == NO
    ensures UpTo(Solve(sys, s).tri, DefaultAt(sys.graph(s).props, SolutionEnv(sys), k), s, sys.modulesVal)
  {
    SolutionSatisfies(sys, s);
    FirstPropAt(Default, sys.graph(s).props, SolutionEnv(sys), k);
  }

  /** Without a user value in effect, an implied symbol is at least what implies it, as far as its dependencies allow;
      what a default adds is limited by them as well. */
  lemma ImpliedValue(sys: System, s: Sym, k: nat)
    requires Acyclic(sys) && IsLogical(sys, s) && FirstOf(Default, sys.graph(s).props, SolutionEnv(sys), k)
    requires var f := SolutionFields(sys, s);
      (f.visible == NO || sys.user(s).None?) && f.implied != NO && !Suppressed(f)
    ensures var (v, f) := (Solve(sys, s).tri, SolutionFields(sys, s));
      var d := DefaultAt(sys.graph(s).props, SolutionEnv(sys), k);
      && v >= TriAnd(f.implied, f.dirDep) && v >= f.revDep && v <= TriOr(f.dirDep, f.revDep)
      && UpTo(v, TriOr(TriAnd(TriOr(d, f.implied), f.dirDep), f.revDep), s, sys.modulesVal)
  {
    SolutionSatisfies(sys, s);
    FirstPropAt(Default, sys.graph(s).props, SolutionEnv(sys), k);
  }

  /** Select adds to what the symbol is otherwise, or makes it n. */
  lemma SelectedValue(sys: System, s: Sym, k: nat)
    requires Acyclic(sys) && IsLogical(sys, s) && FirstOf(Default, sys.graph(s).props, SolutionEnv(sys), k)
    requires var f := SolutionFields(sys, s);
      (f.visible == NO || sys.user(s).None?) && f.implied == NO
    ensures var (v, f) := (Solve(sys, s).tri, SolutionFields(sys, s));
      var d := DefaultAt(sys.graph(s).props, SolutionEnv(sys), k);
      if f.dirDep == NO && f.revDep != NO then v == NO else UpTo(v, TriOr(d, f.revDep), s, sys.modulesVal)
  {
    SolutionSatisfies(sys, s);
    FirstPropAt(Default, sys.graph(s).props, SolutionEnv(sys), k);
  }

  // ---------- strings and numbers ----------

  /** What a default names: a constant or undefined symbol stands for its name, a bool or tristate for n. */
  ghost function NamedValue(sys: System, d: Dep): string
    requires Acyclic(sys)
  {
    if d.None? || !d.value.Symbol? then ""
    else
      var t := d.value.sym;
      if t.typ.Unknown? then t.name else if t.typ.Boolean? || t.typ.Tristate? then "n" else Solve(sys, t).val
  }

  /** The user value while visible, else what the first default that applies names. */
  ghost function Chosen(sys: System, s: Sym, k: nat): string
    requires Acyclic(sys) && k <= |sys.graph(s).props|
  {
    var (ps, u) := (sys.graph(s).props, sys.user(s));
    if SolutionFields(sys, s).visible != NO && u.Some? then u.value.val
    else if k == |ps| then ""
    else NamedValue(sys, ps[k].expr)
  }

  lemma StringIs(sys: System, s: Sym, k: nat)
    requires Acyclic(sys) && s in sys.all && s.typ.String?
    requires FirstOf(Default, sys.graph(s).props, SolutionEnv(sys), k)
    ensures Solve(sys, s).val == Chosen(sys, s, k)
  {
    SolutionSatisfies(sys, s);
    ChosenIs(sys, s, k);
  }

  /** The number that a text denotes for a symbol of a type. */
  function Number(typ: SymType, v: string): int {
    StrToLL(v, if typ.Int? then 10 else 16).0
  }

  lemma ChosenIs(sys: System, s: Sym, k: nat)
    requires Acyclic(sys) && FirstOf(Default, sys.graph(s).props, SolutionEnv(sys), k)
    ensures OwnString(s, sys.graph(s), sys.user(s), SolutionEnv(sys), sys.modulesVal) == Chosen(sys, s, k)
  {
    FirstPropAt(Default, sys.graph(s).props, SolutionEnv(sys), k);
  }

  /** What a range from lo to hi makes of a number: the bound that it misses, so that it lies in between. */
  predicate Moved(typ: SymType, c: string, lo: string, hi: string, v: string) {
    var (n, low, high) := (Number(typ, c), Number(typ, lo), Number(typ, hi));
    && (low <= n <= high ==> v == c) && (n < low ==> v == lo) && (n >= low && n > high ==> v == hi)
    && (low <= high ==> low <= Number(typ, v) <= high)
  }

  lemma ClampMoves(typ: SymType, c: string, lo: string, hi: string)
    requires typ.Int? || typ.Hex?
    ensures Moved(typ, c, lo, hi, Clamp(c, lo, hi, Base(typ)))
  {
  }

  /** A number is what was chosen for it, moved into the first range that applies. */
  lemma NumberIs(sys: System, s: Sym, k: nat, j: nat)
    requires Acyclic(sys) && s in sys.all && (s.typ.Int? || s.typ.Hex?)
    requires FirstOf(Default, sys.graph(s).props, SolutionEnv(sys), k)
    requires FirstOf(Range, sys.graph(s).props, SolutionEnv(sys), j)
    ensures var (v, c, ps) := (Solve(sys, s).val, Chosen(sys, s, k), sys.graph(s).props);
      if j == |ps| || ps[j].bounds.None? then v == c
      else Moved(s.typ, c, ps[j].bounds.value.0.name, ps[j].bounds.value.1.name, v)
  {
    var (ps, env) := (sys.graph(s).props, SolutionEnv(sys));
    SolutionSatisfies(sys, s);
    ChosenIs(sys, s, k);
    FirstPropAt(Range, ps, env, j);
    if j < |ps| && ps[j].bounds.Some? {
      ClampMoves(s.typ, Chosen(sys, s, k), ps[j].bounds.value.0.name, ps[j].bounds.value.1.name);
    }
  }

  // ---------- what can be set ----------

  /** Set by the user, the symbol takes the value. */
  ghost predicate Takes(sys: System, s: Sym, val: Tri)
    requires Acyclic(sys)
  {
    Acyclic(WithUser(sys, s, User(val, ""))) && Solve(WithUser(sys, s, User(val, "")), s).tri == val
  }

  /** What a symbol takes, from its fields. */
  predicate TakesBy(f: Fields, now: Tri, boolean: bool, val: Tri) {
    if f.visible == NO then now == val
    else
      var t := TriOr(TriAnd(val, f.visible), f.revDep);
      val == if t == MOD && boolean then YES else t
  }

  lemma TakenValue(sys: System, s: Sym, val: Tri)
    requires Acyclic(sys) && IsLogical(sys, s) && !Suppressed(SolutionFields(sys, s))
    ensures Takes(sys, s, val) <==>
      TakesBy(SolutionFields(sys, s), Solve(sys, s).tri, BehavesBoolean(s, sys.modulesVal), val)
  {
    SetEquation(sys, s, User(val, ""));
  }

  /** A value is within range exactly when the symbol would take it and could take another one as well, unless a
      selection is suppressed. */
  lemma WithinRangeExact(sys: System, s: Sym, val: Tri)
    requires Acyclic(sys) && IsLogical(sys, s) && !Suppressed(SolutionFields(sys, s))
    ensures WithinRange(s, SolutionFields(sys, s), sys.modulesVal, val) <==>
      Takes(sys, s, val) && (Takes(sys, s, (val + 1) % 3) || Takes(sys, s, (val + 2) % 3))
  {
    TakenValue(sys, s, val);
    TakenValue(sys, s, (val + 1) % 3);
    TakenValue(sys, s, (val + 2) % 3);
    DependenciesAre(sys, s);
    PromptValueGreatest(sys.graph(s).props, SolutionEnv(sys));
    VisibleIs(sys, s, PromptValue(sys.graph(s).props, SolutionEnv(sys)));
    RangeByFields(s, SolutionFields(sys, s), Solve(sys, s).tri, sys.modulesVal, val);
  }

  lemma RangeByFields(s: Sym, f: Fields, now: Tri, modulesVal: Tri, val: Tri)
    requires s.typ.Boolean? || s.typ.Tristate?
    requires BehavesBoolean(s, modulesVal) ==> f.visible != MOD && f.revDep != MOD
    ensures var b := BehavesBoolean(s, modulesVal);
      WithinRange(s, f, modulesVal, val) <==>
        TakesBy(f, now, b, val) && (TakesBy(f, now, b, (val + 1) % 3) || TakesBy(f, now, b, (val + 2) % 3))
  {
  }

  // ---------- what a symbol depends on ----------

  /** The search for recursive dependencies looks at all expressions of a symbol, except the conditions of selects and
      implies, which belong to other symbols, and of the members of choices. */
  lemma {:induction false} DepsExactly(i: SymInfo, x: Sym)
    ensures x in Deps(i) <==>
      || (i.dirDep.Some? && x in Mentioned(i.dirDep.value)) || (i.revDep.Some? && x in Mentioned(i.revDep.value))
      || (i.implied.Some? && x in Mentioned(i.implied.value)) || InProps(i.props, x)
  {
    PropsExactly(i.props, x);
  }

  predicate InProp(p: Property, x: Sym) {
    && p.kind !in {Select, Imply, ChoiceProp}
    && ((p.visible.Some? && x in Mentioned(p.visible.value))
        || (p.kind == Default && p.expr.Some? && x in Mentioned(p.expr.value)))
  }

  predicate InProps(ps: seq<Property>, x: Sym) {
    exists k :: 0 <= k < |ps| && InProp(ps[k], x)
  }

  lemma {:induction false} PropsExactly(ps: seq<Property>, x: Sym)
    ensures x in MentionedProps(ps) <==> InProps(ps, x)
  {
    if ps != [] {
      PropsExactly(ps[1..], x);
      if InProps(ps[1..], x) {
        var k :| 0 <= k < |ps[1..]| && InProp(ps[1..][k], x);
        assert InProp(ps[k + 1], x);
      }
      assert forall k :: 0 < k < |ps| ==> ps[k] == ps[1..][k - 1];
    }
  }
}
