/** Which items menu_finalize puts into the submenu of a symbol, and whether they belong there. */
module Submenus {
  import opened Wrappers
  import opened Exprs
  import opened Elimination
  import opened Duplicates
  import opened Transformation
  import SymDeps

  /** expr_contains_symbol. */
  predicate ContainsSymbol(dep: Expr, s: Sym) {
    match dep
    case Symbol(t) => t == s
    case Compare(_, l, r) => l == s || r == s
    case Not(a) => ContainsSymbol(a, s)
    case Bin(_, l, r) => ContainsSymbol(l, s) || ContainsSymbol(r, s)
  }

  /** Two environments that differ at most in the value of s. */
  ghost predicate AgreeBut(e1: Env, e2: Env, s: Sym) {
    && e1.modules == e2.modules && (TriOf(e1, e1.modules) == NO <==> TriOf(e2, e2.modules) == NO)
    && forall t :: t != s ==> e1.tri(t) == e2.tri(t) && e1.str(t) == e2.str(t)
  }

  /** An expression that does not contain a symbol does not depend on its value. */
  lemma {:induction false} NotContained(dep: Expr, s: Sym, e1: Env, e2: Env)
    requires !ContainsSymbol(dep, s) && AgreeBut(e1, e2, s)
    ensures Eval(dep, e1) == Eval(dep, e2)
  {
    match dep
    case Symbol(_) =>
    case Compare(_, l, r) => assert StrOf(e1, l) == StrOf(e2, l) && StrOf(e1, r) == StrOf(e2, r);
    case Not(a) => NotContained(a, s, e1, e2);
    case Bin(_, l, r) =>
      NotContained(l, s, e1, e2);
      NotContained(r, s, e1, e2);
  }

  /** expr_depends_symbol: an absolute dependency. */
  predicate DependsSymbol(dep: Expr, s: Sym) {
    match dep
    case Symbol(t) => t == s
    case Compare(Equal, l, r) => l == s && (r == SYM_YES || r == SYM_MOD)
    case Compare(Unequal, l, r) => l == s && r == SYM_NO
    case Bin(And, l, r) => DependsSymbol(l, s) || DependsSymbol(r, s)
    case _ => false
  }

  /** The other half of the test: an item with an absolute dependency is only visible while its symbol is not n. */
  lemma {:induction false} DependsImpliesSymbol(dep: Expr, s: Sym, env: Env)
    requires Typed(env) && (s.typ.Boolean? || s.typ.Tristate?)
    requires DependsSymbol(dep, s) && Eval(dep, env) != NO
    ensures TriOf(env, s) != NO
  {
    match dep
    case Symbol(_) =>
    case Compare(_, _, _) => EqualToTriConstant(env, s);
    case Not(_) =>
    case Bin(_, l, r) =>
      if DependsSymbol(l, s) {
        DependsImpliesSymbol(l, s, env);
      } else {
        DependsImpliesSymbol(r, s, env);
      }
  }

  predicate DirectTest(e: Expr, s: Sym) {
    e in {Symbol(s), Compare(Unequal, s, SYM_NO), Compare(Equal, s, SYM_YES), Compare(Equal, s, SYM_MOD)}
  }

  predicate AnyTest(ls: seq<Expr>, s: Sym) {
    exists i :: 0 <= i < |ls| && DirectTest(ls[i], s)
  }

  lemma AnyTestConcat(a: seq<Expr>, b: seq<Expr>, s: Sym)
    ensures AnyTest(a + b, s) <==> AnyTest(a, s) || AnyTest(b, s)
  {
    assert forall i :: 0 <= i < |a| ==> (a + b)[i] == a[i];
    assert forall i :: 0 <= i < |b| ==> (a + b)[|a| + i] == b[i];
    if AnyTest(a, s) {
      var i :| 0 <= i < |a| && DirectTest(a[i], s);
      assert DirectTest((a + b)[i], s);
    } else if AnyTest(b, s) {
      var i :| 0 <= i < |b| && DirectTest(b[i], s);
      assert DirectTest((a + b)[|a| + i], s);
    }
  }

  /** A dependency is absolute exactly when some operand of the conjunction is the symbol, or a test of it for y, for m
      or for not n. */
  lemma {:induction false} DependsExactly(dep: Expr, s: Sym)
    ensures DependsSymbol(dep, s) <==> AnyTest(Leaves(And, dep), s)
  {
    if IsOp(And, dep) {
      DependsExactly(dep.left, s);
      DependsExactly(dep.right, s);
      AnyTestConcat(Leaves(And, dep.left), Leaves(And, dep.right), s);
    } else {
      assert Leaves(And, dep)[0] == dep;
    }
  }

  /** expr_contains_symbol finds the symbols of an expression, and no others. */
  lemma {:induction false} ContainsExactly(dep: Expr, s: Sym)
    ensures ContainsSymbol(dep, s) <==> s in SymDeps.Mentioned(dep)
  {
    match dep
    case Symbol(_) =>
    case Compare(_, _, _) =>
    case Not(a) => ContainsExactly(a, s);
    case Bin(_, l, r) =>
      ContainsExactly(l, s);
      ContainsExactly(r, s);
  }

  /** What the test makes of a condition. */
  function CompareForm(dep: Expr): Expr {
    EliminateDups(Transform(TransCompareNo(dep, Unequal)))
  }

  /** The non-trivial half of the test: dep is a superset of the prompt condition base. */
  predicate SupersetTest(dep: Expr, base: Expr) {
    EliminateEq(CompareForm(dep), CompareForm(base)).1 == Symbol(SYM_YES)
  }

  lemma {:induction false} TransCompareFits(e: Expr, rel: Relation)
    requires Fits(false, e) && (rel.Equal? || rel.Unequal?)
    ensures Fits(false, TransCompareNo(e, rel))
  {
    match e
    case Symbol(_) =>
    case Compare(_, _, _) =>
    case Not(a) => TransCompareFits(a, if rel.Equal? then Unequal else Equal);
    case Bin(_, l, r) =>
      TransCompareFits(l, Equal);
      TransCompareFits(r, Equal);
  }

  lemma ComparedChain(e: Expr, env: Env)
    requires Typed(env) && Fits(false, e)
    ensures Eval(CompareForm(e), env) == Eval(TransCompareNo(e, Unequal), env)
  {
    var c := TransCompareNo(e, Unequal);
    TransCompareFits(e, Unequal);
    TransformSound(c, env);
    TransformFits(c);
    EliminateDupsSound(true, Transform(c), env);
  }

  /** What is wrong about an item in the submenu of base: it can be visible while base is n. */
  predicate Misplaced(dep: Expr, base: Expr, env: Env) {
    SupersetTest(dep, base) && Eval(dep, env) != NO && Eval(base, env) == NO
  }

  /** When an item is put into a submenu by the superset test, the condition of the submenu is not n while the item
      is visible, in every environment where the comparison is right about the condition of the item, and about that of
      the submenu unless all its symbols are known. */
  lemma SubmenuImpliesVisible(dep: Expr, base: Expr, env: Env)
    requires Typed(env) && Fits(false, dep) && Fits(false, base)
    requires Seen(dep, env, true) && (Known(base, env) || Seen(base, env, true))
    ensures !Misplaced(dep, base, env)
  {
    if Misplaced(dep, base, env) {
      ComparedChain(dep, env);
      ComparedChain(base, env);
      TransCompareExact(dep, env);
      UsedUpImplies(CompareForm(dep), CompareForm(base), env);
      if Known(base, env) {
        TransCompareSafe(base, env);
      } else {
        TransCompareExact(base, env);
      }
    }
  }

  // ---------- comparing comparisons ----------

  /** Negating twice gives the normal form. */
  lemma {:induction false} NotTwice(e: Expr)
    requires Normal(e)
    ensures Transform(Not(Transform(Not(e)))) == e
    decreases Weight(e)
  {
    NormalStays(e);
    match e
    case Bin(op, l, r) =>
      NotOverBin(op, l, r);
      var (x, y) := (Transform(Not(l)), Transform(Not(r)));
      TransformNormal(Not(l));
      TransformNormal(Not(r));
      NotOverBin(Dual(op), x, y);
      NotTwice(l);
      NotTwice(r);
    case _ =>
  }

  lemma NotOverBin(op: Op, l: Expr, r: Expr)
    requires Normal(l) && Normal(r)
    ensures Transform(Not(Bin(op, l, r))) == Bin(Dual(op), Transform(Not(l)), Transform(Not(r)))
  {
    NormalStays(l);
    NormalStays(r);
    assert Transform(Bin(op, l, r)) == Bin(op, l, r);
    DeMorganLighter(op, l, r);
  }

  /** Below a negation an operand may be transformed first. */
  lemma NotTransformed(e: Expr)
    ensures Transform(Not(Transform(e))) == Transform(Not(e))
  {
    TransformFixpoints(e);
  }

  /** Every operand is a comparison or a bool. */
  predicate OnlyTests(e: Expr) {
    match e
    case Symbol(s) => s.typ.Boolean?
    case Compare(_, _, _) => true
    case Not(a) => OnlyTests(a)
    case Bin(_, l, r) => OnlyTests(l) && OnlyTests(r)
  }

  lemma {:induction false} ComparedTests(e: Expr, rel: Relation)
    requires rel.Equal? || rel.Unequal?
    ensures OnlyTests(TransCompareNo(e, rel))
  {
    match e
    case Symbol(_) =>
    case Compare(_, _, _) =>
    case Not(a) => ComparedTests(a, if rel.Equal? then Unequal else Equal);
    case Bin(_, l, r) =>
      ComparedTests(l, Equal);
      ComparedTests(r, Equal);
  }

  lemma {:induction false} OnlyTestsKnown(e: Expr, env: Env)
    requires OnlyTests(e)
    ensures Known(e, env)
  {
    match e
    case Not(a) => OnlyTestsKnown(a, env);
    case Bin(_, l, r) =>
      OnlyTestsKnown(l, env);
      OnlyTestsKnown(r, env);
    case _ =>
  }

  /** Comparing what consists of comparisons changes nothing but the form. */
  lemma {:induction false} ComparedAgain(e: Expr)
    requires OnlyTests(e)
    ensures Transform(TransCompareNo(e, Unequal)) == Transform(e)
    ensures Transform(TransCompareNo(e, Equal)) == Transform(Not(e))
  {
    match e
    case Symbol(_) =>
    case Compare(_, _, _) =>
    case Not(a) =>
      ComparedAgain(a);
      NegatedAgain(a);
    case Bin(op, l, r) =>
      ComparedAgain(l);
      ComparedAgain(r);
      BinAgain(op, l, r, TransCompareNo(l, Equal), TransCompareNo(r, Equal));
  }

  lemma NegatedAgain(a: Expr)
    ensures Transform(Not(Not(a))) == Transform(a)
  {
    NotTransformed(Not(a));
    NotTransformed(a);
    TransformNormal(a);
    NotTwice(Transform(a));
  }

  lemma BinAgain(op: Op, l: Expr, r: Expr, x: Expr, y: Expr)
    requires Transform(x) == Transform(Not(l)) && Transform(y) == Transform(Not(r))
    ensures Transform(Not(Bin(Dual(op), x, y))) == Bin(op, Transform(l), Transform(r))
    ensures Transform(Bin(Dual(op), x, y)) == Transform(Not(Bin(op, l, r)))
  {
    TransformNormal(l);
    TransformNormal(r);
    TransformNormal(x);
    TransformNormal(y);
    NotTransformed(Bin(Dual(op), x, y));
    NotOverBin(Dual(op), Transform(x), Transform(y));
    NotTransformed(l);
    NotTransformed(r);
    NotTwice(Transform(l));
    NotTwice(Transform(r));
    NotTransformed(Bin(op, l, r));
    NotOverBin(op, Transform(l), Transform(r));
  }

  /** For an item whose condition compares as a conjunction, the test is right for every submenu whose symbols are known
      if and only if the item is n or the comparison is right about its condition. */
  lemma SubmenuErrs(dep: Expr, env: Env)
    requires Typed(env) && Fits(false, dep)
    requires IsOp(And, CompareForm(dep)) && NoZero(And, CompareForm(dep))
    ensures (exists base :: Fits(false, base) && Known(base, env) && Misplaced(dep, base, env))
       <==> Eval(dep, env) != NO && !Seen(dep, env, true)
  {
    if Seen(dep, env, true) {
      forall base | Fits(false, base) && Known(base, env)
        ensures !Misplaced(dep, base, env)
      {
        SubmenuImpliesVisible(dep, base, env);
      }
    } else if Eval(dep, env) != NO {
      var base := TransCompareNo(dep, Unequal);
      TransCompareFits(dep, Unequal);
      ComparedTests(dep, Unequal);
      OnlyTestsKnown(base, env);
      ComparedAgain(base);
      SelfUsedUp(CompareForm(dep));
      TransCompareExact(dep, env);
      TransCompareOpposites(dep, env);
      assert Misplaced(dep, base, env);
    }
  }

  // ---------- submenus that do not depend on the symbol they belong to ----------

  /** An operand of a comparison in normal form: a bool or its negation, or a test that is none of a bool. */
  predicate NormalTest(e: Expr) {
    match e
    case Symbol(s) => s.typ.Boolean? || IsConstant(e)
    case Compare(_, _, _) => Normal(e)
    case Not(a) => a.Symbol? && a.sym.typ.Boolean?
    case Bin(_, _, _) => false
  }

  lemma NormalTestClosed()
    ensures Closed(NormalTest)
  {
    forall op, e1, e2 {:trigger Join(op, e1, e2)} | Has(NormalTest, e1) && Has(NormalTest, e2) && Join(op, e1, e2).Some?
      ensures Has(NormalTest, Join(op, e1, e2).value)
    {
      if !ExprEq(e1, e2) {
        var s := CommonSubject(e1, e2).value;
        assert !e1.Bin? && !e2.Bin?;
        if s.typ.Boolean? && op.And? {
          BoolsAreNotTested(s, e1, e2);
        }
      }
    }
  }

  lemma BoolsAreNotTested(s: Sym, e1: Expr, e2: Expr)
    requires NormalTest(e1) && NormalTest(e2) && s.typ.Boolean? && CommonSubject(e1, e2) == Some(s)
    ensures ContractAnd(s, e1, e2).None?
  {
  }

  lemma {:induction false} TransformTests(e: Expr)
    requires OnlyTests(e)
    ensures Has(NormalTest, Transform(e))
    decreases Weight(e)
  {
    match e
    case Symbol(_) =>
    case Compare(_, _, _) =>
    case Bin(_, l, r) =>
      TransformTests(l);
      TransformTests(r);
    case Not(a) =>
      TransformTests(a);
      TransformFixpoints(a);
      NegatedTests(Transform(a));
      NotTransformed(a);
  }

  lemma {:induction false} NegatedTests(e: Expr)
    requires Has(NormalTest, e) && Transform(e) == e
    ensures Has(NormalTest, Transform(Not(e)))
  {
    if e.Bin? {
      TransformFixpoints(e);
      TransformFixpoints(e.left);
      TransformFixpoints(e.right);
      NotOverBin(e.op, e.left, e.right);
      NegatedTests(e.left);
      NegatedTests(e.right);
    }
  }

  lemma {:induction false} HasNormal(e: Expr)
    requires Has(NormalTest, e)
    ensures Normal(e)
  {
    if e.Bin? {
      HasNormal(e.left);
      HasNormal(e.right);
    }
  }

  lemma {:induction false} HasOnlyTests(e: Expr)
    requires Has(NormalTest, e) && NoConstantOperands(e) && !IsConstant(e)
    ensures OnlyTests(e) && NegatesSymbols(e)
  {
    if e.Bin? {
      HasOnlyTests(e.left);
      HasOnlyTests(e.right);
    }
  }

  predicate Variable(s: Sym) { s.typ.Boolean? || s.typ.Tristate? }

  function Without(s: Sym): Expr -> bool { (e: Expr) => !ContainsSymbol(e, s) }

  lemma {:induction false} HasWithout(e: Expr, s: Sym)
    ensures Has(Without(s), e) <==> !ContainsSymbol(e, s)
  {
    if e.Bin? {
      HasWithout(e.left, s);
      HasWithout(e.right, s);
    }
  }

  lemma WithoutClosed(s: Sym)
    requires Variable(s)
    ensures Closed(Without(s))
  {
    forall op, e1, e2 {:trigger Join(op, e1, e2)} | Has(Without(s), e1) && Has(Without(s), e2) && Join(op, e1, e2).Some?
      ensures Has(Without(s), Join(op, e1, e2).value)
    {
      HasWithout(e1, s);
      HasWithout(e2, s);
      HasWithout(Join(op, e1, e2).value, s);
    }
  }

  lemma {:induction false} TransformWithout(e: Expr, s: Sym)
    requires Variable(s) && !ContainsSymbol(e, s)
    ensures !ContainsSymbol(Transform(e), s)
    decreases Weight(e)
  {
    match e
    case Symbol(_) =>
    case Compare(_, _, _) =>
    case Bin(_, l, r) =>
      TransformWithout(l, s);
      TransformWithout(r, s);
    case Not(a0) =>
      TransformWithout(a0, s);
      var a := Transform(a0);
      if a.Not? {
        TransformWithout(a.arg, s);
      } else if a.Bin? {
        DeMorganLighter(a.op, a.left, a.right);
        TransformWithout(Bin(Dual(a.op), Not(a.left), Not(a.right)), s);
      }
  }

  lemma {:induction false} CompareWithout(e: Expr, rel: Relation, s: Sym)
    requires Variable(s) && !ContainsSymbol(e, s) && (rel.Equal? || rel.Unequal?)
    ensures !ContainsSymbol(TransCompareNo(e, rel), s)
  {
    match e
    case Symbol(_) =>
    case Compare(_, _, _) =>
    case Not(a) => CompareWithout(a, if rel.Equal? then Unequal else Equal, s);
    case Bin(_, l, r) =>
      CompareWithout(l, Equal, s);
      CompareWithout(r, Equal, s);
  }

  lemma FormWithout(e: Expr, s: Sym)
    requires Variable(s) && !ContainsSymbol(e, s)
    ensures !ContainsSymbol(CompareForm(e), s)
  {
    var c := TransCompareNo(e, Unequal);
    CompareWithout(e, Unequal, s);
    TransformWithout(c, s);
    HasWithout(Transform(c), s);
    WithoutClosed(s);
    EliminateDupsHas(Without(s), Transform(c));
    HasWithout(CompareForm(e), s);
  }

  // ---------- what elimination can remove ----------

  /** Every operand of op is its unit or has no constant operands itself. */
  predicate Solid(op: Op, t: Expr) {
    if IsOp(op, t) then Solid(op, t.left) && Solid(op, t.right)
    else t == Symbol(Unit(op)) || (!IsConstant(t) && NoConstantOperands(t) && NegatesSymbols(t))
  }

  lemma {:induction false} SolidFrom(op: Op, t: Expr)
    requires NoConstantOperands(t) && NegatesSymbols(t) && !IsConstant(t)
    ensures Solid(op, t)
  {
    if IsOp(op, t) {
      SolidFrom(op, t.left);
      SolidFrom(op, t.right);
    }
  }

  lemma {:induction false} SolidKept(op: Op, t: Expr, x: Expr)
    requires Solid(op, t)
    ensures Solid(op, EliminateEq1(op, t, x).0)
    decreases Size(t) + Size(x)
  {
    if IsOp(op, t) {
      SolidKept(op, t.left, x);
      SolidKept(op, t.right, EliminateEq1(op, t.left, x).1);
    } else if IsOp(op, x) {
      SolidKept(op, t, x.left);
      SolidKept(op, EliminateEq1(op, t, x.left).0, x.right);
    }
  }

  lemma {:induction false} EliminatedWithout(op: Op, t: Expr, x: Expr, s: Sym)
    requires Variable(s) && !ContainsSymbol(x, s)
    ensures !ContainsSymbol(EliminateEq1(op, t, x).1, s)
    decreases Size(t) + Size(x)
  {
    if IsOp(op, t) {
      EliminatedWithout(op, t.left, x, s);
      EliminatedWithout(op, t.right, EliminateEq1(op, t.left, x).1, s);
    } else if IsOp(op, x) {
      EliminatedWithout(op, t, x.left, s);
      EliminatedWithout(op, EliminateEq1(op, t, x.left).0, x.right, s);
    }
  }

  lemma {:induction false} YnKeepsSymbol(op: Op, t: Expr, s: Sym)
    requires Solid(op, t) && Variable(s)
    ensures EliminateYn(t) != Symbol(Zero(op))
    ensures ContainsSymbol(t, s) ==> ContainsSymbol(EliminateYn(t), s)
  {
    if IsOp(op, t) {
      YnKeepsSymbol(op, t.left, s);
      YnKeepsSymbol(op, t.right, s);
    } else {
      EliminateYnComplete(t);
    }
  }

  /** An operand is never removed for one that does not contain the same symbols. */
  lemma {:induction false} EqualWithout(t: Expr, x: Expr, s: Sym)
    requires ExprEq(t, x) && !ContainsSymbol(x, s) && Variable(s)
    requires NoConstantOperands(t) && NegatesSymbols(t)
    ensures !ContainsSymbol(t, s)
    decreases Size(t), 1
  {
    if t.Bin? {
      var (p, q) := EliminateEq1(t.op, t, x);
      assert EliminateEqPasses(t, x) == (p, q);
      SolidFrom(t.op, t);
      RemovalKeepsSymbol(t.op, t, x, s, Size(t));
      SolidKept(t.op, t, x);
      YnKeepsSymbol(t.op, p, s);
      EliminatedWithout(t.op, t, x, s);
      HasWithout(q, s);
      EliminateYnHas(Without(s), q);
      HasWithout(EliminateYn(q), s);
    }
  }

  lemma {:induction false} RemovalKeepsSymbol(op: Op, t: Expr, x: Expr, s: Sym, bound: nat)
    requires Solid(op, t) && !ContainsSymbol(x, s) && Variable(s)
    requires Size(t) <= bound && (!IsOp(op, t) ==> Size(t) < bound)
    ensures ContainsSymbol(t, s) ==> ContainsSymbol(EliminateEq1(op, t, x).0, s)
    decreases bound, 0, Size(t) + Size(x)
  {
    if IsOp(op, t) {
      RemovalKeepsSymbol(op, t.left, x, s, bound);
      EliminatedWithout(op, t.left, x, s);
      RemovalKeepsSymbol(op, t.right, EliminateEq1(op, t.left, x).1, s, bound);
    } else if IsOp(op, x) {
      RemovalKeepsSymbol(op, t, x.left, s, bound);
      SolidKept(op, t, x.left);
      RemovalKeepsSymbol(op, EliminateEq1(op, t, x.left).0, x.right, s, bound);
    } else if ExprEq(t, x) && t != Symbol(Unit(op)) {
      EqualWithout(t, x, s);
    }
  }

  /** An operand that is n although it does not depend on s. */
  predicate Blocked(ls: seq<Expr>, s: Sym, env: Env) {
    exists i :: 0 <= i < |ls| && !ContainsSymbol(ls[i], s) && Eval(ls[i], env) == NO
  }

  lemma BlockedConcat(a: seq<Expr>, b: seq<Expr>, s: Sym, env: Env)
    requires Blocked(a, s, env) || Blocked(b, s, env)
    ensures Blocked(a + b, s, env)
  {
    if Blocked(a, s, env) {
      var i :| 0 <= i < |a| && !ContainsSymbol(a[i], s) && Eval(a[i], env) == NO;
      assert (a + b)[i] == a[i];
    } else {
      var i :| 0 <= i < |b| && !ContainsSymbol(b[i], s) && Eval(b[i], env) == NO;
      assert (a + b)[|a| + i] == b[i];
    }
  }

  /** When elimination takes away what made x n, then for an operand that is n and has no more symbols than x. */
  lemma {:induction false} UsedUpBlocked(t: Expr, x: Expr, s: Sym, env: Env)
    requires Solid(And, t) && !ContainsSymbol(x, s) && Variable(s)
    requires Eval(x, env) == NO && Eval(EliminateEq1(And, t, x).1, env) != NO
    ensures Blocked(Leaves(And, t), s, env)
    decreases Size(t) + Size(x)
  {
    if IsOp(And, t) {
      var x' := EliminateEq1(And, t.left, x).1;
      if Eval(x', env) != NO {
        UsedUpBlocked(t.left, x, s, env);
      } else {
        EliminatedWithout(And, t.left, x, s);
        UsedUpBlocked(t.right, x', s, env);
      }
      BlockedConcat(Leaves(And, t.left), Leaves(And, t.right), s, env);
    } else if IsOp(And, x) {
      var (t', l) := EliminateEq1(And, t, x.left);
      if Eval(x.left, env) == NO {
        UsedUpBlocked(t, x.left, s, env);
      } else {
        SolidKept(And, t, x.left);
        UsedUpBlocked(t', x.right, s, env);
        LeafOrUnit(And, t, x.left);
        assert Leaves(And, t') == [t'];
      }
    } else {
      ExprEqSound(t, x, env);
      EqualWithout(t, x, s);
      assert Leaves(And, t)[0] == t;
    }
  }

  lemma {:induction false} LeafOrUnit(op: Op, t: Expr, x: Expr)
    requires !IsOp(op, t)
    ensures EliminateEq1(op, t, x).0 in {t, Symbol(Unit(op))}
    decreases Size(t) + Size(x)
  {
    if IsOp(op, x) {
      LeafOrUnit(op, t, x.left);
      LeafOrUnit(op, EliminateEq1(op, t, x.left).0, x.right);
    }
  }

  lemma UsedUpByFirst(d: Expr, b: Expr, env: Env)
    requires IsOp(And, d) && EliminateEq(d, b).1 == Symbol(SYM_YES) && Eval(b, env) == NO
    ensures Eval(EliminateEq1(And, d, b).1, env) != NO
  {
    var (a1, a2) := EliminateEq1(And, d, b);
    if a2.Bin? && !IsOp(a2.op, a1) {
      FirstPassIdle(d, b);
      EliminateEq1Law(Or, d, b, env);
      EliminateYnSound(EliminateEq1(Or, d, b).1, env);
    } else {
      EliminateYnSound(a2, env);
    }
  }

  /** An operand of a conjunction is used up by it. */
  lemma {:induction false} OperandUsedUp(t: Expr, x: Expr, i: nat)
    requires i < |Leaves(And, t)| && Leaves(And, t)[i] == x && !IsOp(And, x)
    ensures EliminateEq1(And, t, x).1 == Symbol(SYM_YES) || (IsConstant(x) && EliminateEq1(And, t, x).1 == x)
  {
    if IsOp(And, t) {
      var n := |Leaves(And, t.left)|;
      var x' := EliminateEq1(And, t.left, x).1;
      if i < n {
        OperandUsedUp(t.left, x, i);
        UnitUsedUp(t.right, x');
      } else {
        OperandStays(t.left, x);
        if x' == x {
          OperandUsedUp(t.right, x, i - n);
        } else {
          UnitUsedUp(t.right, x');
        }
      }
    } else {
      ExprEqReflexive(x);
    }
  }

  lemma {:induction false} UnitUsedUp(t: Expr, x: Expr)
    requires x == Symbol(SYM_YES) || x == Symbol(SYM_NO)
    ensures EliminateEq1(And, t, x).1 == x
    decreases t
  {
    if IsOp(And, t) {
      UnitUsedUp(t.left, x);
      UnitUsedUp(t.right, EliminateEq1(And, t.left, x).1);
    }
  }

  lemma {:induction false} OperandStays(t: Expr, x: Expr)
    requires !IsOp(And, x)
    ensures EliminateEq1(And, t, x).1 in {x, Symbol(SYM_YES)}
    decreases t
  {
    if IsOp(And, t) {
      OperandStays(t.left, x);
      OperandStays(t.right, EliminateEq1(And, t.left, x).1);
    }
  }

  /** What holds of the comparison of an item. */
  lemma FormFacts(dep: Expr, env: Env)
    requires Typed(env) && Fits(false, dep)
    ensures Fits(true, CompareForm(dep)) && Has(NormalTest, CompareForm(dep)) && Irreducible(CompareForm(dep))
  {
    var c := TransCompareNo(dep, Unequal);
    TransCompareFits(dep, Unequal);
    TransformFits(c);
    EliminateDupsSound(true, Transform(c), env);
    ComparedTests(dep, Unequal);
    TransformTests(c);
    NormalTestClosed();
    EliminateDupsHas(NormalTest, Transform(c));
    EliminateDupsComplete(Transform(c));
  }

  /** An operand is its own comparison. */
  lemma OperandForm(d: Expr, x: Expr, i: nat)
    requires IsOp(And, d) && NoConstantOperands(d)
    requires Fits(true, d) && Has(NormalTest, d) && Irreducible(d)
    requires i < |Leaves(And, d)| && x == Leaves(And, d)[i]
    ensures CompareForm(x) == x && OnlyTests(x) && Fits(false, x) && !IsConstant(x)
  {
    LeavesFit(true, And, d);
    FitsWeaker(x);
    LeavesHave(NormalTest, And, d);
    ReducibleLeaves(And, d);
    HasOnlyTests(x);
    HasNormal(x);
    NormalStays(x);
    ComparedAgain(x);
    EliminateDupsComplete(x);
  }

  lemma OperandMisplaced(dep: Expr, x: Expr, i: nat, env: Env)
    requires Typed(env) && Fits(false, dep)
    requires IsOp(And, CompareForm(dep)) && NoConstantOperands(CompareForm(dep))
    requires i < |Leaves(And, CompareForm(dep))| && x == Leaves(And, CompareForm(dep))[i]
    ensures Fits(false, x) && Known(x, env) && SupersetTest(dep, x)
  {
    var d := CompareForm(dep);
    FormFacts(dep, env);
    OperandForm(d, x, i);
    OnlyTestsKnown(x, env);
    OperandUsedUp(d, x, i);
    assert EliminateEqPasses(d, x).1 == Symbol(SYM_YES);
  }

  lemma MisplacedBlocked(dep: Expr, base: Expr, s: Sym, env: Env)
    requires Typed(env) && Fits(false, dep) && Variable(s)
    requires IsOp(And, CompareForm(dep)) && NoConstantOperands(CompareForm(dep))
    requires Fits(false, base) && Known(base, env) && !ContainsSymbol(base, s) && Misplaced(dep, base, env)
    ensures Blocked(Leaves(And, CompareForm(dep)), s, env)
  {
    var (d, b) := (CompareForm(dep), CompareForm(base));
    FormFacts(dep, env);
    FitsNegates(d);
    SolidFrom(And, d);
    TransCompareOpposites(base, env);
    if Eval(TransCompareNo(base, Unequal), env) != NO {
      TransCompareSafe(base, env);
    }
    ComparedChain(base, env);
    FormWithout(base, s);
    UsedUpByFirst(d, b, env);
    UsedUpBlocked(d, b, s, env);
  }

  /** The condition of a submenu does not contain the symbol s that the submenu belongs to. For an item whose condition
      compares as a conjunction, some such submenu is wrong if and only if the item is not n although an operand of the
      comparison is that does not depend on s. */
  lemma SubmenuExact(dep: Expr, s: Sym, env: Env)
    requires Typed(env) && Fits(false, dep) && Variable(s)
    requires IsOp(And, CompareForm(dep)) && NoConstantOperands(CompareForm(dep))
    ensures (exists base ::
              Fits(false, base) && Known(base, env) && !ContainsSymbol(base, s) && Misplaced(dep, base, env))
       <==> Eval(dep, env) != NO && Blocked(Leaves(And, CompareForm(dep)), s, env)
  {
    var ls := Leaves(And, CompareForm(dep));
    if Eval(dep, env) != NO && Blocked(ls, s, env) {
      var i :| 0 <= i < |ls| && !ContainsSymbol(ls[i], s) && Eval(ls[i], env) == NO;
      OperandMisplaced(dep, ls[i], i, env);
      assert Misplaced(dep, ls[i], env);
    } else {
      forall base | Fits(false, base) && Known(base, env) && !ContainsSymbol(base, s)
        ensures !Misplaced(dep, base, env)
      {
        if Misplaced(dep, base, env) {
          MisplacedBlocked(dep, base, s, env);
        }
      }
    }
  }

  // ---------- examples ----------

  /** The symbols of the examples below. */
  function Tristate3(id: nat, name: string): Sym { Sym(id, name, Tristate, false) }

  /** (x!=n || y!=n) && t, which no rewrite simplifies. */
  function TestsOf(x: Sym, y: Sym, t: Expr): Expr {
    Bin(And, Bin(Or, Compare(Unequal, x, SYM_NO), Compare(Unequal, y, SYM_NO)), t)
  }

  lemma TestsStay(x: Sym, y: Sym, t: Expr)
    requires x != y && x.typ.Tristate? && y.typ.Tristate? && t.Compare?
    ensures EliminateDups(TestsOf(x, y, t)) == TestsOf(x, y, t)
  {
    var (p, q) := (Compare(Unequal, x, SYM_NO), Compare(Unequal, y, SYM_NO));
    var either := Bin(Or, p, q);
    assert Leaves(Or, either) == [p, q];
    assert Irreducible(p) && Irreducible(q) && Irreducible(t);
    assert Join(Or, p, q).None? && Join(Or, q, p).None?;
    assert Irreducible(either);
    assert Leaves(And, TestsOf(x, y, t)) == [either, t];
    assert Join(And, either, t).None? && Join(And, t, either).None?;
    assert Irreducible(TestsOf(x, y, t));
    EliminateDupsComplete(TestsOf(x, y, t));
  }

  lemma TestsUsedUp(x: Sym, y: Sym, t: Expr)
    requires t.Compare?
    ensures EliminateEq(TestsOf(x, y, t), t).1 == Symbol(SYM_YES)
  {
    var d := TestsOf(x, y, t);
    assert EliminateEq1(And, d.left, t) == (d.left, t);
    assert ExprEq(t, t) && EliminateEq1(And, t, t) == (Symbol(SYM_YES), Symbol(SYM_YES));
    assert EliminateEq1(And, d, t) == (Bin(And, d.left, Symbol(SYM_YES)), Symbol(SYM_YES));
    assert EliminateEqPasses(d, t).1 == Symbol(SYM_YES);
  }

  /** (s || q) && a compares as (s!=n || q!=n) && t, when a compares as t. */
  lemma ComparedTests3(s: Sym, q: Sym, a: Expr, t: Expr)
    requires s.typ.Tristate? && q.typ.Tristate? && s != q && t.Compare?
    requires Transform(Not(TransCompareNo(a, Equal))) == t
    ensures CompareForm(Bin(And, Bin(Or, Symbol(s), Symbol(q)), a)) == TestsOf(s, q, t)
  {
    var (sn, qn, an) := (Compare(Equal, s, SYM_NO), Compare(Equal, q, SYM_NO), TransCompareNo(a, Equal));
    var both := Bin(And, sn, qn);
    assert Transform(both) == both;
    NotOverBin(And, sn, qn);
    TransformNormal(an);
    NotTransformed(an);
    NotTransformed(Bin(Or, both, an));
    NotOverBin(Or, both, Transform(an));
    assert TransCompareNo(Bin(Or, Symbol(s), Symbol(q)), Equal) == both;
    TestsStay(s, q, t);
  }

  /** The test does fail: (S || Q) && !A counts as a superset of A=n, but with A=m the first is m while the second
      is n. */
  lemma SubmenuNotImplied()
    ensures var (s, q, a) := (Tristate3(3, "S"), Tristate3(4, "Q"), Tristate3(5, "A"));
      var (dep, base) := (Bin(And, Bin(Or, Symbol(s), Symbol(q)), Not(Symbol(a))), Compare(Equal, a, SYM_NO));
      && Misplaced(dep, base, Uniform(MOD)) && Known(base, Uniform(MOD)) && !ContainsSymbol(base, s)
      && !Seen(dep, Uniform(MOD), true)
  {
    var (s, q, a) := (Tristate3(3, "S"), Tristate3(4, "Q"), Tristate3(5, "A"));
    var base := Compare(Equal, a, SYM_NO);
    ComparedTests3(s, q, Not(Symbol(a)), base);
    TestsUsedUp(s, q, base);
    EliminateDupsComplete(base);
    assert Typed(Uniform(MOD));
    EqualToTriConstant(Uniform(MOD), a);
  }

  /** And it fails for a submenu whose condition U is not defined: (S || Q) && U!=n counts as a superset of U, which is
      n. Here the comparison is right about the item. */
  lemma SubmenuOfUndefined(u: Sym, env: Env)
    requires u.typ.Unknown? && !u.Logical() && CompareSyms(env, u, SYM_NO) != 0 && Typed(env)
    ensures var (s, q) := (Tristate3(3, "S"), Tristate3(4, "Q"));
      var (dep, base) := (Bin(And, Bin(Or, Symbol(s), Symbol(q)), Compare(Unequal, u, SYM_NO)), Symbol(u));
      && SupersetTest(dep, base) && Seen(dep, env, true) && Eval(base, env) == NO
      && (env.tri(s) == YES ==> Misplaced(dep, base, env))
  {
    var (s, q) := (Tristate3(3, "S"), Tristate3(4, "Q"));
    var t := Compare(Unequal, u, SYM_NO);
    NegatedAgain(t);
    ComparedTests3(s, q, t, t);
    TestsUsedUp(s, q, t);
    EliminateDupsComplete(t);
    UnnegatedSeen(Bin(And, Bin(Or, Symbol(s), Symbol(q)), t), env);
    IsTested(u, env);
  }

  lemma IsTested(u: Sym, env: Env)
    requires CompareSyms(env, u, SYM_NO) != 0
    ensures Eval(Compare(Unequal, u, SYM_NO), env) == YES
  {
  }
}
