/** From the conditions written in a menu file to the conditions that symbols carry, and what they mean there. */
module Conditions {
  import opened Wrappers
  import opened Exprs
  import opened Duplicates
  import opened Transformation
  import opened SymDeps
  import opened SymSolver
  import SymCalc

  /** Where a menu node stands: the conditions written on it and on the nodes around it, outermost first, from the
      choice on if it is inside one. */
  datatype Place = Place(choice: Option<Sym>, around: seq<Dep>)

  predicate AllFitDeps(ds: seq<Dep>) {
    forall i :: 0 <= i < |ds| ==> FitsDep(false, ds[i])
  }

  /** The dependency that the node ends up with, simplified level by level. */
  function Enclosing(p: Place, modules: Sym): Dep
    decreases |p.around|
  {
    var n := |p.around|;
    if n == 0 then (if p.choice.None? then None else Some(Symbol(p.choice.value)))
    else Propagate(Enclosing(p.(around := p.around[..n - 1]), modules), p.around[n - 1], modules)
  }

  /** The value of all conditions as written. */
  function AsWritten(p: Place, env: Env, modules: Sym): Tri
    decreases |p.around|
  {
    var n := |p.around|;
    if n == 0 then (if p.choice.None? then YES else TriOf(env, p.choice.value))
    else TriAnd(AsWritten(p.(around := p.around[..n - 1]), env, modules), EvalModulesDep(p.around[n - 1], env, modules))
  }

  /** However deep a node is nested, its dependency has the value of the conditions as written. */
  lemma {:induction false} EnclosingSound(p: Place, env: Env, modules: Sym)
    requires Typed(env) && AllFitDeps(p.around)
    ensures FitsDep(true, Enclosing(p, modules)) && EvalDep(Enclosing(p, modules), env) == AsWritten(p, env, modules)
    decreases |p.around|
  {
    var n := |p.around|;
    if n > 0 {
      var outer := p.(around := p.around[..n - 1]);
      EnclosingSound(outer, env, modules);
      PropagateSound(Enclosing(outer, modules), p.around[n - 1], env, modules);
    }
  }

  /** A property as written: its place and its own condition. */
  datatype Written = Written(kind: PropKind, place: Place, own: Dep, expr: Dep, bounds: Option<(Sym, Sym)>)

  predicate FitsWritten(w: Written) {
    AllFitDeps(w.place.around) && FitsDep(false, w.own)
  }

  predicate AllFitWritten(ws: seq<Written>) {
    forall i :: 0 <= i < |ws| ==> FitsWritten(ws[i])
  }

  /** What menu_finalize makes of the properties of a symbol of a type. */
  function Simplified(ws: seq<Written>, modules: Sym, typ: SymType): seq<Property> {
    if ws == [] then []
    else
      var w := ws[0];
      [Property(w.kind, PropagatePrompt(Enclosing(w.place, modules), w.own, modules, typ), w.expr, w.bounds)]
      + Simplified(ws[1..], modules, typ)
  }

  function ConditionAsWritten(w: Written, env: Env, modules: Sym): Tri {
    TriAnd(AsWritten(w.place, env, modules), EvalModulesDep(w.own, env, modules))
  }

  /** The greatest prompt condition as written. */
  function PromptAsWritten(ws: seq<Written>, env: Env, modules: Sym): Tri {
    if ws == [] then NO
    else TriOr(if IsPrompt(ws[0].kind) then ConditionAsWritten(ws[0], env, modules) else NO,
               PromptAsWritten(ws[1..], env, modules))
  }

  lemma {:induction false} PromptsKeep(ws: seq<Written>, env: Env, modules: Sym, typ: SymType)
    requires Typed(env) && AllFitWritten(ws)
    ensures var (v, w) := (PromptValue(Simplified(ws, modules, typ), env), PromptAsWritten(ws, env, modules));
      (v != NO <==> w != NO) && v <= w && (typ.Tristate? ==> v == w)
  {
    if ws != [] {
      EnclosingSound(ws[0].place, env, modules);
      PropagatePromptSound(Enclosing(ws[0].place, modules), ws[0].own, env, modules, typ);
      assert Simplified(ws, modules, typ)[1..] == Simplified(ws[1..], modules, typ);
      PromptsKeep(ws[1..], env, modules, typ);
    }
  }

  /** The visibility of a symbol is that of the conditions as written, whatever its type and however deep its
      definitions are nested. */
  lemma VisibilityUnchanged(s: Sym, info: SymInfo, ws: seq<Written>, env: Env, modules: Sym, modulesVal: Tri)
    requires Typed(env) && AllFitWritten(ws) && info.props == Simplified(ws, modules, s.typ)
    ensures Visible(s, info, env, modulesVal) == Promote(PromptAsWritten(ws, env, modules), s.typ, modulesVal)
  {
    PromptsKeep(ws, env, modules, s.typ);
  }

  /** So is the visibility that the solver calculates. */
  lemma SolvedVisibility(sys: System, s: Sym, ws: seq<Written>, modules: Sym)
    requires Acyclic(sys) && AllFitWritten(ws) && sys.graph(s).props == Simplified(ws, modules, s.typ)
    ensures SymCalc.SolutionFields(sys, s).visible ==
      Promote(PromptAsWritten(ws, SolutionEnv(sys), modules), s.typ, sys.modulesVal)
  {
    SolutionTyped(sys);
    VisibilityUnchanged(s, sys.graph(s), ws, SolutionEnv(sys), modules, sys.modulesVal);
  }

  // ---------- direct dependencies ----------

  /** expr_alloc_or: NULL is the identity. */
  function AllocOr(a: Dep, b: Dep): Dep {
    if a.None? then b else if b.None? then a else Some(Bin(Or, a.value, b.value))
  }

  /** The direct dependency that a symbol collects from the places where it is defined. */
  function Direct(places: seq<Place>, modules: Sym): Dep
    decreases |places|
  {
    var n := |places|;
    if n == 0 then None else AllocOr(Direct(places[..n - 1], modules), Enclosing(places[n - 1], modules))
  }

  /** What the dependencies of a symbol are as written: those of any of its places. */
  function DirectAsWritten(places: seq<Place>, env: Env, modules: Sym): Tri
    decreases |places|
  {
    var n := |places|;
    if n == 0 then NO
    else TriOr(DirectAsWritten(places[..n - 1], env, modules), AsWritten(places[n - 1], env, modules))
  }

  /** A place without any condition. */
  predicate Open(p: Place) {
    p.choice.None? && forall i :: 0 <= i < |p.around| ==> p.around[i].None?
  }

  lemma {:induction false} OpenPlace(p: Place, env: Env, modules: Sym)
    ensures Enclosing(p, modules).None? <==> Open(p)
    ensures Open(p) ==> AsWritten(p, env, modules) == YES
    decreases |p.around|
  {
    var n := |p.around|;
    if n > 0 {
      var outer := p.(around := p.around[..n - 1]);
      OpenPlace(outer, env, modules);
      OpenParts(p);
      PropagateNone(Enclosing(outer, modules), p.around[n - 1], modules);
    }
  }

  lemma OpenParts(p: Place)
    requires p.around != []
    ensures var n := |p.around|; Open(p) <==> Open(p.(around := p.around[..n - 1])) && p.around[n - 1].None?
  {
    var front := p.around[..|p.around| - 1];
    assert p.around == front + [p.around[|front|]];
  }

  lemma PropagateNone(enclosing: Dep, own: Dep, modules: Sym)
    ensures Propagate(enclosing, own, modules).None? <==> enclosing.None? && own.None?
  {
  }

  predicate AllFitPlaces(places: seq<Place>) {
    forall i :: 0 <= i < |places| ==> AllFitDeps(places[i].around)
  }

  predicate AllOpen(places: seq<Place>) {
    forall i :: 0 <= i < |places| ==> Open(places[i])
  }

  predicate NoneOpen(places: seq<Place>) {
    forall i :: 0 <= i < |places| ==> !Open(places[i])
  }

  /** The same without the places that have no condition. */
  function Stated(places: seq<Place>, env: Env, modules: Sym): (t: Tri)
    ensures NoneOpen(places) ==> t == DirectAsWritten(places, env, modules)
    decreases |places|
  {
    var n := |places|;
    if n == 0 then NO
    else
      var t := Stated(places[..n - 1], env, modules);
      if Open(places[n - 1]) then t else TriOr(t, AsWritten(places[n - 1], env, modules))
  }

  lemma LastPlace(front: seq<Place>, last: Place)
    ensures AllOpen(front + [last]) <==> AllOpen(front) && Open(last)
    ensures NoneOpen(front + [last]) <==> NoneOpen(front) && !Open(last)
  {
    var places := front + [last];
    assert places[|front|] == last && forall i :: 0 <= i < |front| ==> places[i] == front[i];
  }

  /** What is collected from the places: their disjunction, where those without conditions are dropped unless there
      are no others. */
  ghost predicate Collects(places: seq<Place>, env: Env, modules: Sym) {
    var (d, stated) := (Direct(places, modules), Stated(places, env, modules));
    && (d.None? <==> AllOpen(places))
    && (if d.None? then stated == NO else EvalDep(d, env) == stated)
    && (NoneOpen(places) || DirectAsWritten(places, env, modules) == YES)
  }

  lemma {:induction false} DirectValue(places: seq<Place>, env: Env, modules: Sym)
    requires Typed(env) && AllFitPlaces(places)
    ensures Collects(places, env, modules)
    decreases |places|
  {
    var n := |places|;
    if n > 0 {
      var (front, last) := (places[..n - 1], places[n - 1]);
      DirectValue(front, env, modules);
      assert places == front + [last];
      CollectsOne(front, last, env, modules);
    }
  }

  lemma CollectsOne(front: seq<Place>, last: Place, env: Env, modules: Sym)
    requires Typed(env) && AllFitDeps(last.around) && Collects(front, env, modules)
    ensures Collects(front + [last], env, modules)
  {
    var places := front + [last];
    assert places[..|front|] == front && places[|front|] == last;
    OpenPlace(last, env, modules);
    EnclosingSound(last, env, modules);
    LastPlace(front, last);
    OrValue(Direct(front, modules), Enclosing(last, modules), env);
  }

  lemma OrValue(a: Dep, b: Dep, env: Env)
    ensures AllocOr(a, b).None? <==> a.None? && b.None?
    ensures a.Some? && b.Some? ==> EvalDep(AllocOr(a, b), env) == TriOr(EvalDep(a, env), EvalDep(b, env))
  {
  }

  /** The direct dependency means what was written if and only if the places with conditions are all of them or none,
      or one of them is y. */
  lemma DirectExact(places: seq<Place>, env: Env, modules: Sym)
    requires Typed(env) && AllFitPlaces(places) && places != []
    ensures EvalDep(Direct(places, modules), env) == DirectAsWritten(places, env, modules) <==>
      AllOpen(places) || NoneOpen(places) || Stated(places, env, modules) == YES
  {
    DirectValue(places, env, modules);
    if AllOpen(places) {
      assert Open(places[0]) && !NoneOpen(places);
    }
  }

  /** Every prompt stands at a place where the symbol is defined. */
  predicate PromptsAt(ws: seq<Written>, places: seq<Place>) {
    forall i :: 0 <= i < |ws| && IsPrompt(ws[i].kind) ==> ws[i].place in places
  }

  lemma {:induction false} PlaceCounts(p: Place, places: seq<Place>, env: Env, modules: Sym)
    requires p in places
    ensures AsWritten(p, env, modules) <= DirectAsWritten(places, env, modules)
    decreases |places|
  {
    var n := |places|;
    assert places == places[..n - 1] + [places[n - 1]];
    if p != places[n - 1] {
      PlaceCounts(p, places[..n - 1], env, modules);
    }
  }

  lemma {:induction false} PromptsBelow(ws: seq<Written>, places: seq<Place>, env: Env, modules: Sym)
    requires PromptsAt(ws, places)
    ensures PromptAsWritten(ws, env, modules) <= DirectAsWritten(places, env, modules)
  {
    if ws != [] {
      if IsPrompt(ws[0].kind) {
        PlaceCounts(ws[0].place, places, env, modules);
      }
      PromptsBelow(ws[1..], places, env, modules);
    }
  }

  /** A symbol is defined with the properties and at the places that were written. */
  ghost predicate Defined(sys: System, s: Sym, ws: seq<Written>, places: seq<Place>, modules: Sym) {
    && AllFitWritten(ws) && AllFitPlaces(places) && PromptsAt(ws, places)
    && sys.graph(s).props == Simplified(ws, modules, s.typ) && sys.graph(s).dirDep == Direct(places, modules)
  }

  /** Unless places with and without conditions are mixed, a symbol is never visible against its dependencies. */
  lemma VisibleIsMet(sys: System, s: Sym, ws: seq<Written>, places: seq<Place>, modules: Sym)
    requires Acyclic(sys) && Defined(sys, s, ws, places, modules) && (AllOpen(places) || NoneOpen(places))
    ensures SymCalc.SolutionFields(sys, s).visible != NO ==> SymCalc.SolutionFields(sys, s).dirDep != NO
  {
    var env := SolutionEnv(sys);
    SolutionTyped(sys);
    PromptsKeep(ws, env, modules, s.typ);
    PromptsBelow(ws, places, env, modules);
    if places != [] {
      DirectExact(places, env, modules);
    }
  }

  /** Then every value within range is honoured. */
  lemma AlwaysHonoured(sys: System, s: Sym, u: User, ws: seq<Written>, places: seq<Place>, modules: Sym)
    requires Acyclic(sys) && s in sys.all
    requires SymCalc.WithinRange(s, SymCalc.SolutionFields(sys, s), sys.modulesVal, u.tri)
    requires Defined(sys, s, ws, places, modules) && (AllOpen(places) || NoneOpen(places))
    ensures Acyclic(SymCalc.WithUser(sys, s, u)) && Solve(SymCalc.WithUser(sys, s, u), s).tri == u.tri
  {
    VisibleIsMet(sys, s, ws, places, modules);
    SymCalc.SetHonoured(sys, s, u);
  }

  /** Where they are mixed, the dependencies of one place become those of the whole symbol. */
  lemma OpenPlaceDropped(p: Place, modules: Sym)
    ensures Direct([Place(None, []), p], modules) == Enclosing(p, modules)
  {
    var open := Place(None, []);
    assert [open, p][..1] == [open] && [open][..0] == [];
    assert Enclosing(open, modules) == None && Direct([open], modules) == None;
  }

  // ---------- reverse dependencies ----------

  /** A select or imply: the symbol it belongs to, and the property. */
  datatype Selection = Selection(selector: Sym, written: Written)

  /** What a selection adds to the reverse dependency of the symbol selected. */
  function Term(x: Selection, modules: Sym): Dep {
    AllocAnd(Some(Symbol(x.selector)),
             PropagatePrompt(Enclosing(x.written.place, modules), x.written.own, modules, x.selector.typ))
  }

  /** The reverse dependency that a symbol collects, selection by selection. */
  function Collected(xs: seq<Selection>, modules: Sym): Dep
    decreases |xs|
  {
    var n := |xs|;
    if n == 0 then None else AllocOr(Collected(xs[..n - 1], modules), Term(xs[n - 1], modules))
  }

  function TermAsWritten(x: Selection, env: Env, modules: Sym): Tri {
    TriAnd(TriOf(env, x.selector), ConditionAsWritten(x.written, env, modules))
  }

  /** What selects a symbol, as written: the greatest of the selecting values, each bounded by its condition. */
  function SelectedAsWritten(xs: seq<Selection>, env: Env, modules: Sym): Tri
    decreases |xs|
  {
    var n := |xs|;
    if n == 0 then NO else TriOr(SelectedAsWritten(xs[..n - 1], env, modules), TermAsWritten(xs[n - 1], env, modules))
  }

  /** A reverse dependency that is missing means n. */
  function ReverseValue(d: Dep, env: Env): Tri {
    if d.None? then NO else Eval(d.value, env)
  }

  lemma TermKeeps(x: Selection, env: Env, modules: Sym)
    requires Typed(env) && FitsWritten(x.written)
    ensures Term(x, modules).Some?
    ensures var (v, w) := (ReverseValue(Term(x, modules), env), TermAsWritten(x, env, modules));
      (v != NO <==> w != NO) && v <= w && (x.selector.typ.Tristate? ==> v == w)
  {
    var w := x.written;
    EnclosingSound(w.place, env, modules);
    PropagatePromptSound(Enclosing(w.place, modules), w.own, env, modules, x.selector.typ);
    var p := PropagatePrompt(Enclosing(w.place, modules), w.own, modules, x.selector.typ);
    if p.Some? {
      assert Term(x, modules) == Some(Bin(And, Symbol(x.selector), p.value));
      assert Eval(Symbol(x.selector), env) == TriOf(env, x.selector);
    } else {
      assert Term(x, modules) == Some(Symbol(x.selector));
    }
  }

  lemma ReverseOr(a: Dep, b: Dep, env: Env)
    ensures ReverseValue(AllocOr(a, b), env) == TriOr(ReverseValue(a, env), ReverseValue(b, env))
  {
  }

  /** A symbol is selected exactly when it is as written, never by more; and by as much when the selectors are
      tristates. */
  lemma {:induction false} SelectsKeep(xs: seq<Selection>, env: Env, modules: Sym)
    requires Typed(env) && forall i :: 0 <= i < |xs| ==> FitsWritten(xs[i].written)
    ensures var (v, w) := (ReverseValue(Collected(xs, modules), env), SelectedAsWritten(xs, env, modules));
      && (v != NO <==> w != NO) && v <= w
      && ((forall i :: 0 <= i < |xs| ==> xs[i].selector.typ.Tristate?) ==> v == w)
    decreases |xs|
  {
    var n := |xs|;
    if n > 0 {
      SelectsKeep(xs[..n - 1], env, modules);
      TermKeeps(xs[n - 1], env, modules);
      ReverseOr(Collected(xs[..n - 1], modules), Term(xs[n - 1], modules), env);
    }
  }

  /** A selection keeps its strength if and only if the selector is a tristate or not y, or no test in the simplified
      condition is lowered to the symbol it tests. */
  lemma SelectionExact(x: Selection, env: Env, modules: Sym)
    requires Typed(env) && FitsWritten(x.written)
    ensures var d := Propagate(Enclosing(x.written.place, modules), x.written.own, modules);
      ReverseValue(Term(x, modules), env) == TermAsWritten(x, env, modules) <==>
        x.selector.typ.Tristate? || TriOf(env, x.selector) != YES || d.None? || TransBoolKeeps(d.value, env, false)
  {
    var w := x.written;
    EnclosingSound(w.place, env, modules);
    PropagateSound(Enclosing(w.place, modules), w.own, env, modules);
    var d := Propagate(Enclosing(w.place, modules), w.own, modules);
    var p := PropagatePrompt(Enclosing(w.place, modules), w.own, modules, x.selector.typ);
    assert Eval(Symbol(x.selector), env) == TriOf(env, x.selector);
    if d.Some? {
      assert Term(x, modules) == Some(Bin(And, Symbol(x.selector), p.value));
      FitsNegates(d.value);
      TransBoolVisible(d.value, env);
      TransBoolMoves(d.value, env);
    } else {
      assert Term(x, modules) == Some(Symbol(x.selector));
    }
  }

  /** Selected by a bool with the condition A!=n, a symbol is only m when A is m, although the condition as written is
      y: the condition becomes A before it is collected. */
  lemma SelectLowered()
    ensures var (b, a) := (Sym(3, "B", Boolean, false), Sym(4, "A", Tristate, false));
      var x := Selection(b, Written(Select, Place(None, []), Some(Compare(Unequal, a, SYM_NO)), None, None));
      var env := Env((s: Sym) => if s.typ.Tristate? then MOD else YES, (s: Sym) => "", SYM_YES);
      Typed(env) && TermAsWritten(x, env, SYM_YES) == YES && ReverseValue(Term(x, SYM_YES), env) == MOD
  {
    var (b, a) := (Sym(3, "B", Boolean, false), Sym(4, "A", Tristate, false));
    var test := Compare(Unequal, a, SYM_NO);
    var w := Written(Select, Place(None, []), Some(test), None, None);
    var env := Env((s: Sym) => if s.typ.Tristate? then MOD else YES, (s: Sym) => "", SYM_YES);
    EqualToTriConstant(env, a);
    assert Irreducible(test);
    EliminateDupsComplete(test);
    assert Enclosing(w.place, SYM_YES) == None;
    assert Propagate(None, Some(test), SYM_YES) == Some(test);
  }
}
