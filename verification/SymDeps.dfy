/** sym_check_deps: the depth-first search for recursive dependencies, without choice blocks. */
module SymDeps {
  import opened Wrappers
  import opened Exprs

  datatype PropKind = Prompt | Comment | MenuProp | Default | ChoiceProp | Select | Imply | Range | SymbolProp | Reset

  /** A property. The bounds of a range are symbols; its expr is only used for defaults. */
  datatype Property = Property(kind: PropKind, visible: Dep, expr: Dep, bounds: Option<(Sym, Sym)>)

  /** The expressions attached to a symbol. */
  datatype SymInfo = SymInfo(dirDep: Dep, revDep: Dep, implied: Dep, props: seq<Property>)

  /** The symbols in an expression. */
  function Mentioned(e: Expr): set<Sym> {
    match e
    case Symbol(s) => {s}
    case Compare(_, l, r) => {l, r}
    case Not(a) => Mentioned(a)
    case Bin(_, l, r) => Mentioned(l) + Mentioned(r)
  }

  function MentionedDep(d: Dep): set<Sym> {
    if d.None? then {} else Mentioned(d.value)
  }

  /** The symbols that a property makes its symbol depend on, as far as the search looks. */
  function MentionedProp(p: Property): set<Sym> {
    if p.kind.ChoiceProp? || p.kind.Select? || p.kind.Imply? then {}
    else MentionedDep(p.visible) + if p.kind.Default? then MentionedDep(p.expr) else {}
  }

  function MentionedProps(ps: seq<Property>): set<Sym> {
    if ps == [] then {} else MentionedProp(ps[0]) + MentionedProps(ps[1..])
  }

  /** All dependencies of a symbol. */
  function Deps(i: SymInfo): set<Sym> {
    MentionedDep(i.dirDep) + MentionedDep(i.revDep) + MentionedDep(i.implied) + MentionedProps(i.props)
  }

  type Graph = Sym -> SymInfo

  predicate Edge(g: Graph, s: Sym, d: Sym) {
    d in Deps(g(s))
  }

  ghost predicate Edges(g: Graph, s: Sym, ds: set<Sym>) {
    forall d :: d in ds ==> Edge(g, s, d)
  }

  /** Each symbol depends on the next. */
  ghost predicate IsPath(g: Graph, p: seq<Sym>) {
    |p| > 1 ==> IsPath(g, p[..|p| - 1]) && Edge(g, p[|p| - 2], p[|p| - 1])
  }

  lemma {:induction false} PathSuffix(g: Graph, p: seq<Sym>, i: nat)
    requires IsPath(g, p) && i <= |p|
    ensures IsPath(g, p[i..])
    decreases |p|
  {
    if |p| - i > 1 {
      PathSuffix(g, p[..|p| - 1], i);
      assert p[i..][..|p| - i - 1] == p[..|p| - 1][i..];
    }
  }

  /** A non-empty path whose last symbol depends on the first. */
  ghost predicate IsCycle(g: Graph, p: seq<Sym>) {
    p != [] && IsPath(g, p) && Edge(g, p[|p| - 1], p[0])
  }

  ghost predicate OnCycle(g: Graph, s: Sym) {
    exists p :: IsCycle(g, p) && p[0] == s
  }

  ghost predicate Closed(g: Graph, all: set<Sym>) {
    forall s, d :: s in all && Edge(g, s, d) ==> d in all
  }

  /** Every symbol of the list depends only on symbols further to the front. */
  ghost predicate Topological(g: Graph, order: seq<Sym>) {
    order != [] ==>
      var n := |order| - 1;
      Topological(g, order[..n]) && forall d :: Edge(g, order[n], d) ==> d in order[..n]
  }

  lemma TopologicalExtends(g: Graph, order: seq<Sym>, s: Sym)
    requires Topological(g, order) && forall d :: Edge(g, s, d) ==> d in order
    ensures Topological(g, order + [s])
  {
    assert (order + [s])[..|order|] == order;
  }

  lemma {:induction false} TopologicalAt(g: Graph, order: seq<Sym>, i: nat, d: Sym)
    requires Topological(g, order) && i < |order| && Edge(g, order[i], d)
    ensures d in order[..i]
    decreases |order|
  {
    var n := |order| - 1;
    if i < n {
      TopologicalAt(g, order[..n], i, d);
      assert order[..n][..i] == order[..i];
    }
  }

  /** In a topological list, a path stays in front of where it starts. */
  lemma {:induction false} PathDescends(g: Graph, order: seq<Sym>, p: seq<Sym>, i: nat)
    requires Topological(g, order) && IsPath(g, p) && p != [] && i < |order| && order[i] == p[0]
    ensures |p| > 1 ==> p[|p| - 1] in order[..i]
    decreases |p|
  {
    if |p| > 1 {
      var q := p[..|p| - 1];
      PathDescends(g, order, q, i);
      var last := q[|q| - 1];
      var j :| 0 <= j <= i && order[j] == last;
      TopologicalAt(g, order, j, p[|p| - 1]);
      assert order[..j] <= order[..i];
    }
  }

  /** Symbols that can be listed topologically do not lie on cycles. */
  lemma TopologicalAcyclic(g: Graph, order: seq<Sym>, s: Sym)
    requires Topological(g, order) && s in order
    ensures !OnCycle(g, s)
  {
    if OnCycle(g, s) {
      var p :| IsCycle(g, p) && p[0] == s;
      var i := FirstIndex(order, s);
      var q := p + [s];
      assert q[..|q| - 1] == p;
      PathDescends(g, order, q, i);
    }
  }

  lemma {:induction false} FirstIndex(order: seq<Sym>, s: Sym) returns (i: nat)
    requires s in order
    ensures i < |order| && order[i] == s && s !in order[..i]
  {
    if order[0] == s {
      i := 0;
    } else {
      var j := FirstIndex(order[1..], s);
      i := j + 1;
      assert order[..i] == [order[0]] + order[1..][..j];
    }
  }

  ghost function Elems(p: seq<Sym>): set<Sym> {
    set s | s in p
  }

  lemma ElemsAppend(p: seq<Sym>, s: Sym)
    ensures Elems(p + [s]) == Elems(p) + {s}
  {
  }

  lemma NonEmptyElems(p: seq<Sym>)
    ensures p != [] ==> Elems(p) != {}
  {
    if p != [] {
      assert p[0] in Elems(p);
    }
  }

  lemma PathExtends(g: Graph, p: seq<Sym>, s: Sym)
    requires IsPath(g, p) && (p != [] ==> Edge(g, p[|p| - 1], s))
    ensures (p + [s])[..|p|] == p && IsPath(g, p + [s])
  {
    assert (p + [s])[..|p|] == p;
  }

  class Checker {
    const graph: Graph
    const all: set<Sym>
    const recursiveIsError: bool
    var check: set<Sym>       // SYMBOL_CHECK: the symbol is being checked
    var checked: set<Sym>     // SYMBOL_CHECKED
    var stack: seq<Sym>       // the dep_stack entries, bottom first
    var reported: bool        // sym_check_print_recursive has been called
    ghost var order: seq<Sym> // symbols whose check is complete

    constructor (g: Graph, symbols: set<Sym>, strict: bool)
      requires Closed(g, symbols)
      ensures graph == g && all == symbols && recursiveIsError == strict
      ensures Valid() && check == {} && checked == {} && !reported
    {
      graph, all, recursiveIsError := g, symbols, strict;
      check, checked, stack, reported, order := {}, {}, [], false, [];
    }

    /** pending holds the symbol that is marked but not yet, or no longer, on the stack. */
    ghost predicate Inv(pending: set<Sym>)
      reads this
    {
      && Closed(graph, all) && check <= checked <= all
      && check == Elems(stack) + pending && Elems(stack) !! pending && IsPath(graph, stack)
      && (!reported ==> Topological(graph, order) && Elems(order) == checked - check)
    }

    ghost predicate Valid()
      reads this
    {
      Inv({})
    }

    ghost predicate HasCycle() {
      exists s :: s in all && OnCycle(graph, s)
    }

    /** What every part of the search promises about the marks and about the symbol it returns. */
    ghost predicate Searched(r: Option<Sym>, check0: set<Sym>, checked0: set<Sym>, stack0: seq<Sym>, reported0: bool)
      reads this
    {
      && check == check0 && stack == stack0 && checked0 <= checked
      && (reported0 ==> reported)
      && (r.Some? ==> reported && OnCycle(graph, r.value) && r.value in all)
      && (r.Some? && !recursiveIsError ==> r.value in check)
      && (r.None? && recursiveIsError ==> reported == reported0)
      && (reported && !reported0 ==> HasCycle())
    }

    /** The dependencies found so far have been searched completely. */
    ghost predicate Finished(deps: set<Sym>)
      reads this
    {
      !reported ==> forall d :: d in deps ==> d in checked && d !in check
    }

    /** The symbol reported is on the stack, so the report finds where the cycle starts, and the stack from
        there on is the cycle. */
    lemma StackCycle(s: Sym)
      requires Valid() && stack != [] && Edge(graph, stack[|stack| - 1], s) && s in check
      ensures OnCycle(graph, s)
    {
      var i :| 0 <= i < |stack| && stack[i] == s;
      var p := stack[i..];
      PathSuffix(graph, stack, i);
      assert IsCycle(graph, p);
    }

    lemma FinishedBefore(s: Sym)
      requires Inv({s}) && Finished(Deps(graph(s))) && !reported
      ensures forall d :: Edge(graph, s, d) ==> d in order
    {
      forall d | Edge(graph, s, d)
        ensures d in order
      {
        assert d in Deps(graph(s));
        assert d in Elems(order);
      }
    }

    /** sym_check_deps, called for a dependency s of the symbol on top of the stack, or for any symbol at the
        top level. */
    method CheckDeps(s: Sym) returns (r: Option<Sym>)
      requires Valid() && s in all && (stack != [] ==> Edge(graph, stack[|stack| - 1], s))
      modifies this
      ensures Valid() && Searched(r, old(check), old(checked), old(stack), old(reported)) && Finished({s})
      decreases all - checked, 0
    {
      if s in check {
        StackCycle(s);
        reported := true;
        return Some(s);
      }
      if s in checked {
        return None;
      }
      check, checked := check + {s}, checked + {s};
      r := CheckSymDeps(s);
      Complete(s);
      if !recursiveIsError && r == Some(s) {
        r := None;
      }
    }

    /** Clears the mark of a symbol whose dependencies have been searched. */
    method Complete(s: Sym)
      requires Inv({s}) && Finished(Deps(graph(s)))
      modifies this`check, this`order
      ensures Valid() && check == old(check) - {s}
    {
      if !reported {
        FinishedBefore(s);
        TopologicalExtends(graph, order, s);
        ElemsAppend(order, s);
        order := order + [s];
      }
      check := check - {s};
    }

    /** sym_check_sym_deps: all expressions attached to s, in the order of the code. */
    method CheckSymDeps(s: Sym) returns (r: Option<Sym>)
      requires Inv({s}) && s in all && (stack != [] ==> Edge(graph, stack[|stack| - 1], s))
      modifies this
      ensures Inv({s}) && Searched(r, old(check), old(checked), old(stack), old(reported)) && Finished(Deps(graph(s)))
      decreases all - checked, 4
    {
      ghost var stack0 := stack;
      stack := stack + [s];
      PathExtends(graph, stack0, s);
      ElemsAppend(stack0, s);
      r := CheckInfo(s);
      stack := stack[..|stack| - 1];
    }

    /** The expressions attached to s: direct, reverse and weak reverse dependencies, then the properties. */
    method CheckInfo(s: Sym) returns (r: Option<Sym>)
      requires Valid() && s in all && stack != [] && stack[|stack| - 1] == s
      modifies this
      ensures Valid() && Searched(r, old(check), old(checked), old(stack), old(reported)) && Finished(Deps(graph(s)))
      decreases all - checked, 3, 1
    {
      var info := graph(s);
      r := CheckDep(s, info.dirDep);
      if r.Some? {
        return;
      }
      r := CheckDep(s, info.revDep);
      if r.Some? {
        return;
      }
      r := CheckDep(s, info.implied);
      if r.Some? {
        return;
      }
      r := CheckProps(s, info.props);
    }

    /** The loop over the properties of s; ps are those still to be looked at. */
    method CheckProps(s: Sym, ps: seq<Property>) returns (r: Option<Sym>)
      requires Valid() && s in all && stack != [] && stack[|stack| - 1] == s && Edges(graph, s, MentionedProps(ps))
      modifies this
      ensures Valid() && Searched(r, old(check), old(checked), old(stack), old(reported)) && Finished(MentionedProps(ps))
      decreases all - checked, 3, 0, |ps|
    {
      r := None;
      if ps == [] {
        return;
      }
      if !(ps[0].kind.ChoiceProp? || ps[0].kind.Select? || ps[0].kind.Imply?) {
        r := CheckDep(s, ps[0].visible);
        if r.Some? {
          return;
        }
        if ps[0].kind.Default? {
          r := CheckDep(s, ps[0].expr);
          if r.Some? {
            return;
          }
        }
      }
      r := CheckProps(s, ps[1..]);
    }

    /** sym_check_expr_deps on a possibly NULL expression. */
    method CheckDep(s: Sym, d: Dep) returns (r: Option<Sym>)
      requires Valid() && s in all && stack != [] && stack[|stack| - 1] == s && Edges(graph, s, MentionedDep(d))
      modifies this
      ensures Valid() && Searched(r, old(check), old(checked), old(stack), old(reported)) && Finished(MentionedDep(d))
      decreases all - checked, 2
    {
      if d.None? {
        return None;
      }
      r := CheckExpr(s, d.value);
    }

    method CheckExpr(s: Sym, e: Expr) returns (r: Option<Sym>)
      requires Valid() && s in all && stack != [] && stack[|stack| - 1] == s && Edges(graph, s, Mentioned(e))
      modifies this
      ensures Valid() && Searched(r, old(check), old(checked), old(stack), old(reported)) && Finished(Mentioned(e))
      decreases all - checked, 1, e
    {
      match e
      case Bin(_, left, right) =>
        r := CheckExpr(s, left);
        if r.None? {
          r := CheckExpr(s, right);
        }
      case Not(a) =>
        r := CheckExpr(s, a);
      case Compare(_, l, m) =>
        r := CheckDeps(l);
        if r.None? {
          r := CheckDeps(m);
        }
      case Symbol(t) =>
        r := CheckDeps(t);
    }

    /** The check of all symbols after parsing: a cycle is reported if and only if there is one, and it counts as
        an error exactly in the strict mode. */
    method CheckAll(symbols: seq<Sym>) returns (errors: nat)
      requires Valid() && check == {} && !reported && Elems(symbols) == all
      modifies this
      ensures reported <==> HasCycle()
      ensures errors > 0 <==> recursiveIsError && HasCycle()
      ensures !reported ==> Topological(graph, order) && Elems(order) == all
    {
      errors := 0;
      NonEmptyElems(stack);
      for i := 0 to |symbols|
        invariant Valid() && check == {} && stack == []
        invariant reported ==> HasCycle()
        invariant !reported ==> forall j :: 0 <= j < i ==> symbols[j] in checked
        invariant errors > 0 <==> recursiveIsError && reported
      {
        assert symbols[i] in Elems(symbols);
        var r := CheckDeps(symbols[i]);
        if r.Some? {
          errors := errors + 1;
        }
      }
      if !reported {
        assert Elems(order) == all by {
          forall s | s in all
            ensures s in checked
          {
            assert s in Elems(symbols);
          }
        }
      }
      if !reported && HasCycle() {
        var s :| s in all && OnCycle(graph, s);
        assert s in Elems(order);
        TopologicalAcyclic(graph, order, s);
      }
    }
  }
}
