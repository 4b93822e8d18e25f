/** When a symbol is visible, met or selected, in terms of the conditions that are written in the menu file. */
module ConditionLaws {
  import opened Wrappers
  import opened Exprs
  import opened Transformation
  import opened SymDeps
  import opened SymSolver
  import opened Conditions
  import Duplicates
  import SymCalc

  // ---------- the constant m ----------

  /** The expression with n in the place of every constant m that stands for a truth value. */
  function WithoutM(e: Expr): Expr {
    match e
    case Symbol(s) => if s == SYM_MOD then Symbol(SYM_NO) else e
    case Compare(_, _, _) => e
    case Not(a) => Not(WithoutM(a))
    case Bin(op, l, r) => Bin(op, WithoutM(l), WithoutM(r))
  }

  /** The constant m is n while modules are disabled, and m otherwise. */
  lemma {:induction false} ModulesDecide(e: Expr, env: Env, modules: Sym)
    ensures EvalModules(e, env, modules) == Eval(if TriOf(env, modules) == NO then WithoutM(e) else e, env)
  {
    match e
    case Symbol(_) =>
    case Compare(_, _, _) =>
    case Not(a) => ModulesDecide(a, env, modules);
    case Bin(_, l, r) =>
      ModulesDecide(l, env, modules);
      ModulesDecide(r, env, modules);
  }

  /** So it is in what rewrite_m makes of an expression. */
  lemma RewrittenReads(e: Expr, env: Env, modules: Sym)
    ensures Eval(RewriteM(e, modules), env) == Eval(if TriOf(env, modules) == NO then WithoutM(e) else e, env)
  {
    RewriteMSound(e, env, modules);
    ModulesDecide(e, env, modules);
  }

  // ---------- simplified conditions ----------

  /** At every level of a menu file the conditions are simplified: no duplicates and nothing to merge is left. The
      conditions of a symbol that is no tristate do not test a tristate for not being n; those of a tristate are the
      same as for the node. */
  lemma Simplifies(enclosing: Dep, own: Dep, modules: Sym, typ: SymType)
    ensures var d := Propagate(enclosing, own, modules);
      && (d.None? <==> enclosing.None? && own.None?) && (d.Some? ==> Duplicates.Settled(d.value, false))
    ensures var (d, p) := (Propagate(enclosing, own, modules), PropagatePrompt(enclosing, own, modules, typ));
      && (p.None? <==> d.None?) && (p.Some? && !typ.Tristate? ==> NoneTested(p.value)) && (typ.Tristate? ==> p == d)
  {
    var rewritten := if own.None? then None else Some(Transform(RewriteM(own.value, modules)));
    var joined := AllocAnd(enclosing, rewritten);
    if joined.Some? {
      Duplicates.EliminateDupsSettles(joined.value);
      TransBoolComplete(Duplicates.EliminateDups(joined.value));
    }
  }

  /** Only conditions are simplified: the properties of a symbol keep their order, their kinds, values and bounds. */
  lemma {:induction false} OnlyConditions(ws: seq<Written>, modules: Sym, typ: SymType)
    ensures |Simplified(ws, modules, typ)| == |ws|
    ensures forall i :: 0 <= i < |ws| ==> var p := Simplified(ws, modules, typ)[i];
      p.kind == ws[i].kind && p.expr == ws[i].expr && p.bounds == ws[i].bounds
  {
    if ws != [] {
      OnlyConditions(ws[1..], modules, typ);
      assert Simplified(ws, modules, typ)[1..] == Simplified(ws[1..], modules, typ);
      assert forall i :: 0 < i < |ws| ==> ws[i] == ws[1..][i - 1];
    }
  }

  // ---------- the conditions around a place ----------

  /** No condition around the place exceeds t from below, and one of them, or the choice, is t; y without any. */
  ghost predicate LeastAround(p: Place, env: Env, modules: Sym, t: Tri) {
    && (forall i :: 0 <= i < |p.around| ==> t <= EvalModulesDep(p.around[i], env, modules))
    && (p.choice.Some? ==> t <= TriOf(env, p.choice.value))
    && (|| t == YES || (p.choice.Some? && t == TriOf(env, p.choice.value))
        || exists i :: 0 <= i < |p.around| && t == EvalModulesDep(p.around[i], env, modules))
  }

  /** What a place is worth is the least of the conditions written around it. */
  lemma {:induction false} WrittenLeast(p: Place, env: Env, modules: Sym)
    ensures LeastAround(p, env, modules, AsWritten(p, env, modules))
    decreases |p.around|
  {
    var n := |p.around|;
    if n > 0 {
      var outer := p.(around := p.around[..n - 1]);
      WrittenLeast(outer, env, modules);
      LeastStep(p, outer, env, modules, AsWritten(outer, env, modules), AsWritten(p, env, modules));
    }
  }

  lemma LeastStep(p: Place, outer: Place, env: Env, modules: Sym, t: Tri, u: Tri)
    requires p.around != [] && outer == p.(around := p.around[..|p.around| - 1]) && LeastAround(outer, env, modules, t)
    requires u == TriAnd(t, EvalModulesDep(p.around[|p.around| - 1], env, modules))
    ensures LeastAround(p, env, modules, u)
  {
    var n := |p.around| - 1;
    assert forall i :: 0 <= i < n ==> outer.around[i] == p.around[i];
    if u != YES && u == t && !(p.choice.Some? && t == TriOf(env, p.choice.value)) {
      var i :| 0 <= i < |outer.around| && t == EvalModulesDep(outer.around[i], env, modules);
      assert t == EvalModulesDep(p.around[i], env, modules);
    }
  }

  /** All conditions around the place are at least m, and so is the choice that it is inside of. */
  predicate Met(p: Place, env: Env, modules: Sym) {
    && (p.choice.Some? ==> TriOf(env, p.choice.value) != NO)
    && forall i :: 0 <= i < |p.around| ==> EvalModulesDep(p.around[i], env, modules) != NO
  }

  lemma MetExactly(p: Place, env: Env, modules: Sym)
    ensures AsWritten(p, env, modules) != NO <==> Met(p, env, modules)
  {
    WrittenLeast(p, env, modules);
  }

  // ---------- visibility ----------

  /** A prompt with its condition and those around it met. */
  predicate PromptMet(w: Written, env: Env, modules: Sym) {
    w.kind in {Prompt, MenuProp, Comment} && Met(w.place, env, modules) && EvalModulesDep(w.own, env, modules) != NO
  }

  ghost predicate AnyPromptMet(ws: seq<Written>, env: Env, modules: Sym) {
    exists i :: 0 <= i < |ws| && PromptMet(ws[i], env, modules)
  }

  lemma {:induction false} PromptWritten(ws: seq<Written>, env: Env, modules: Sym)
    ensures PromptAsWritten(ws, env, modules) != NO <==> AnyPromptMet(ws, env, modules)
  {
    if ws != [] {
      PromptWritten(ws[1..], env, modules);
      MetExactly(ws[0].place, env, modules);
      assert forall i :: 0 < i < |ws| ==> ws[i] == ws[1..][i - 1];
      if AnyPromptMet(ws[1..], env, modules) {
        var i :| 0 <= i < |ws[1..]| && PromptMet(ws[1..][i], env, modules);
        assert PromptMet(ws[i + 1], env, modules);
      }
    }
  }

  /** A symbol is visible if and only if all conditions of one of its prompts are met, as they are written. */
  lemma VisibleExactly(sys: System, s: Sym, ws: seq<Written>, modules: Sym)
    requires Acyclic(sys) && AllFitWritten(ws) && sys.graph(s).props == Simplified(ws, modules, s.typ)
    ensures SymCalc.SolutionFields(sys, s).visible != NO <==> AnyPromptMet(ws, SolutionEnv(sys), modules)
  {
    SolvedVisibility(sys, s, ws, modules);
    PromptWritten(ws, SolutionEnv(sys), modules);
  }

  /** The condition of a prompt with those around it. */
  predicate PromptWorth(w: Written, env: Env, modules: Sym, t: Tri) {
    w.kind in {Prompt, MenuProp, Comment}
    && t == TriAnd(AsWritten(w.place, env, modules), EvalModulesDep(w.own, env, modules))
  }

  ghost predicate GreatestPrompt(ws: seq<Written>, env: Env, modules: Sym, t: Tri) {
    && (forall i, u: Tri :: 0 <= i < |ws| && PromptWorth(ws[i], env, modules, u) ==> u <= t)
    && (t != NO ==> exists i :: 0 <= i < |ws| && PromptWorth(ws[i], env, modules, t))
  }

  /** What the prompts of a symbol are worth is the greatest of them. */
  lemma {:induction false} PromptGreatest(ws: seq<Written>, env: Env, modules: Sym)
    ensures GreatestPrompt(ws, env, modules, PromptAsWritten(ws, env, modules))
  {
    if ws != [] {
      PromptGreatest(ws[1..], env, modules);
      var (t, rest) := (PromptAsWritten(ws, env, modules), PromptAsWritten(ws[1..], env, modules));
      assert forall i :: 0 < i < |ws| ==> ws[i] == ws[1..][i - 1];
      if t != NO {
        if t == rest {
          var i :| 0 <= i < |ws[1..]| && PromptWorth(ws[1..][i], env, modules, t);
          assert PromptWorth(ws[i + 1], env, modules, t);
        } else {
          assert PromptWorth(ws[0], env, modules, t);
        }
      }
    }
  }

  // ---------- direct dependencies ----------

  ghost predicate GreatestPlace(places: seq<Place>, env: Env, modules: Sym, t: Tri) {
    && (forall i :: 0 <= i < |places| ==> AsWritten(places[i], env, modules) <= t)
    && (t != NO ==> exists i :: 0 <= i < |places| && AsWritten(places[i], env, modules) == t)
  }

  /** The dependencies of a symbol are worth as much as the best of its places. */
  lemma {:induction false} DirectGreatest(places: seq<Place>, env: Env, modules: Sym)
    ensures GreatestPlace(places, env, modules, DirectAsWritten(places, env, modules))
    decreases |places|
  {
    var n := |places|;
    if n > 0 {
      var front := places[..n - 1];
      DirectGreatest(front, env, modules);
      var t := DirectAsWritten(places, env, modules);
      assert forall i :: 0 <= i < n - 1 ==> front[i] == places[i];
      if t != NO && t != AsWritten(places[n - 1], env, modules) {
        var i :| 0 <= i < |front| && AsWritten(front[i], env, modules) == t;
        assert AsWritten(places[i], env, modules) == t;
      }
    }
  }

  /** Unless places with and without conditions are mixed, the dependencies of a symbol are met if and only if all
      conditions around one of its places are. */
  lemma DirectMet(sys: System, s: Sym, ws: seq<Written>, places: seq<Place>, modules: Sym)
    requires Acyclic(sys) && Defined(sys, s, ws, places, modules) && (AllOpen(places) || NoneOpen(places))
    requires places != []
    ensures SymCalc.SolutionFields(sys, s).dirDep != NO <==>
      exists i :: 0 <= i < |places| && Met(places[i], SolutionEnv(sys), modules)
  {
    var env := SolutionEnv(sys);
    SolutionTyped(sys);
    DirectExact(places, env, modules);
    DirectGreatest(places, env, modules);
    forall i | 0 <= i < |places|
      ensures AsWritten(places[i], env, modules) != NO <==> Met(places[i], env, modules)
    {
      MetExactly(places[i], env, modules);
    }
  }

  // ---------- selections ----------

  /** The selector is not n, and the conditions of the selection are met. */
  predicate SelectionMet(x: Selection, env: Env, modules: Sym) {
    && TriOf(env, x.selector) != NO && Met(x.written.place, env, modules)
    && EvalModulesDep(x.written.own, env, modules) != NO
  }

  ghost predicate AnySelectionMet(xs: seq<Selection>, env: Env, modules: Sym) {
    exists i :: 0 <= i < |xs| && SelectionMet(xs[i], env, modules)
  }

  lemma {:induction false} SelectedWritten(xs: seq<Selection>, env: Env, modules: Sym)
    ensures SelectedAsWritten(xs, env, modules) != NO <==> AnySelectionMet(xs, env, modules)
    decreases |xs|
  {
    var n := |xs|;
    if n > 0 {
      var front := xs[..n - 1];
      SelectedWritten(front, env, modules);
      MetExactly(xs[n - 1].written.place, env, modules);
      assert forall i :: 0 <= i < n - 1 ==> front[i] == xs[i];
      if AnySelectionMet(front, env, modules) {
        var i :| 0 <= i < |front| && SelectionMet(front[i], env, modules);
        assert SelectionMet(xs[i], env, modules);
      }
    }
  }

  /** A symbol is selected if and only if some selection of it, as written, has a selector that is not n and its
      conditions met. */
  lemma SelectedExactly(xs: seq<Selection>, env: Env, modules: Sym)
    requires Typed(env) && forall i :: 0 <= i < |xs| ==> FitsWritten(xs[i].written)
    ensures ReverseValue(Collected(xs, modules), env) != NO <==> AnySelectionMet(xs, env, modules)
  {
    SelectsKeep(xs, env, modules);
    SelectedWritten(xs, env, modules);
  }

  /** What one selection is worth. */
  function Worth(x: Selection, env: Env, modules: Sym): Tri {
    TriAnd(TriOf(env, x.selector),
           TriAnd(AsWritten(x.written.place, env, modules), EvalModulesDep(x.written.own, env, modules)))
  }

  ghost predicate GreatestWorth(xs: seq<Selection>, env: Env, modules: Sym, t: Tri) {
    && (forall i :: 0 <= i < |xs| ==> Worth(xs[i], env, modules) <= t)
    && (t != NO ==> exists i :: 0 <= i < |xs| && Worth(xs[i], env, modules) == t)
  }

  lemma {:induction false} SelectedGreatest(xs: seq<Selection>, env: Env, modules: Sym)
    ensures GreatestWorth(xs, env, modules, SelectedAsWritten(xs, env, modules))
    decreases |xs|
  {
    var n := |xs|;
    if n > 0 {
      var front := xs[..n - 1];
      SelectedGreatest(front, env, modules);
      var t := SelectedAsWritten(xs, env, modules);
      assert forall i :: 0 <= i < n - 1 ==> front[i] == xs[i];
      if t != NO && t != Worth(xs[n - 1], env, modules) {
        var i :| 0 <= i < |front| && Worth(front[i], env, modules) == t;
        assert Worth(xs[i], env, modules) == t;
      }
    }
  }
}
