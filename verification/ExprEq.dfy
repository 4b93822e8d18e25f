/** Elimination of y and n operands, and of operands common to two expressions. */
module Elimination {
  import opened Exprs

  /** expr_eliminate_yn. */
  function EliminateYn(e: Expr): (r: Expr)
    ensures Size(r) <= Size(e)
  {
    if !e.Bin? then e
    else
      var l, r := EliminateYn(e.left), EliminateYn(e.right);
      if l == Symbol(Zero(e.op)) then l
      else if l == Symbol(Unit(e.op)) then r
      else if r == Symbol(Zero(e.op)) then r
      else if r == Symbol(Unit(e.op)) then l
      else Bin(e.op, l, r)
  }

  /** No operand reachable through && and || is the constant y or n. */
  predicate NoConstantOperands(e: Expr) {
    e.Bin? ==>
      && e.left !in {Symbol(SYM_YES), Symbol(SYM_NO)} && e.right !in {Symbol(SYM_YES), Symbol(SYM_NO)}
      && NoConstantOperands(e.left) && NoConstantOperands(e.right)
  }

  lemma {:induction false} EliminateYnSound(e: Expr, env: Env)
    ensures Eval(EliminateYn(e), env) == Eval(e, env)
  {
    if e.Bin? {
      EliminateYnSound(e.left, env);
      EliminateYnSound(e.right, env);
    }
  }

  /** What is left has no y or n operand; nothing was touched exactly when there was none before; otherwise
      the tree has become strictly smaller. */
  lemma {:induction false} EliminateYnComplete(e: Expr)
    ensures NoConstantOperands(EliminateYn(e))
    ensures NoConstantOperands(e) <==> EliminateYn(e) == e
    ensures NoConstantOperands(e) <==> Size(EliminateYn(e)) == Size(e)
  {
    if e.Bin? {
      EliminateYnComplete(e.left);
      EliminateYnComplete(e.right);
    }
  }

  /** __expr_eliminate_eq on two separate trees: the leaves of each tree with respect to op are compared
      with each other, and two equal leaves are both overwritten with the unit of op. */
  function EliminateEq1(op: Op, e1: Expr, e2: Expr): (r: (Expr, Expr))
    ensures Size(r.0) <= Size(e1) && Size(r.1) <= Size(e2)
    ensures IsOp(op, e1) <==> IsOp(op, r.0)
    ensures IsOp(op, e2) <==> IsOp(op, r.1)
    decreases Size(e1) + Size(e2), if IsOp(op, e1) || IsOp(op, e2) then 0 else 4
  {
    if IsOp(op, e1) then
      var (l, e2') := EliminateEq1(op, e1.left, e2);
      var (r, e2'') := EliminateEq1(op, e1.right, e2');
      (Bin(op, l, r), e2'')
    else if IsOp(op, e2) then
      var (e1', l) := EliminateEq1(op, e1, e2.left);
      var (e1'', r) := EliminateEq1(op, e1', e2.right);
      (e1'', Bin(op, l, r))
    else if e1 == e2 && e1 in {Symbol(SYM_YES), Symbol(SYM_NO)} then (e1, e2)
    else if !ExprEq(e1, e2) then (e1, e2)
    else (Symbol(Unit(op)), Symbol(Unit(op)))
  }

  /** The two passes of expr_eliminate_eq, before y and n operands are dropped. */
  function EliminateEqPasses(e1: Expr, e2: Expr): (r: (Expr, Expr))
    ensures Size(r.0) <= Size(e1) && Size(r.1) <= Size(e2)
    decreases Size(e1) + Size(e2), 1
  {
    var (a1, a2) := if e1.Bin? then EliminateEq1(e1.op, e1, e2) else (e1, e2);
    if a2.Bin? && !IsOp(a2.op, a1) then EliminateEq1(a2.op, a1, a2) else (a1, a2)
  }

  /** expr_eliminate_eq on expressions that are not NULL. */
  function EliminateEq(e1: Expr, e2: Expr): (r: (Expr, Expr))
    ensures Size(r.0) <= Size(e1) && Size(r.1) <= Size(e2)
    decreases Size(e1) + Size(e2), 2
  {
    var (r1, r2) := EliminateEqPasses(e1, e2);
    (EliminateYn(r1), EliminateYn(r2))
  }

  /** expr_eq on expressions that are not NULL. */
  predicate ExprEq(e1: Expr, e2: Expr)
    decreases Size(e1) + Size(e2), 3
  {
    match (e1, e2)
    case (Compare(c1, l1, r1), Compare(c2, l2, r2)) => c1 == c2 && l1 == l2 && r1 == r2
    case (Symbol(s1), Symbol(s2)) => s1 == s2
    case (Not(a1), Not(a2)) => ExprEq(a1, a2)
    case (Bin(op1, _, _), Bin(op2, _, _)) =>
      op1 == op2 &&
      var (r1, r2) := EliminateEq(e1, e2);
      r1.Symbol? && r2.Symbol? && r1.sym == r2.sym
    case _ => false
  }

  // ---------- soundness ----------

  /** The operands that EliminateEq1 removes, as an expression: the common factor of both sides. */
  ghost function CommonFactor(op: Op, e1: Expr, e2: Expr): Expr
    decreases Size(e1) + Size(e2)
  {
    if IsOp(op, e1) then
      var e2' := EliminateEq1(op, e1.left, e2).1;
      Bin(op, CommonFactor(op, e1.left, e2), CommonFactor(op, e1.right, e2'))
    else if IsOp(op, e2) then
      var e1' := EliminateEq1(op, e1, e2.left).0;
      Bin(op, CommonFactor(op, e1, e2.left), CommonFactor(op, e1', e2.right))
    else if EliminateEq1(op, e1, e2) == (e1, e2) then Symbol(Unit(op))
    else e1
  }

  /** One common factor c has been taken out of both sides. */
  ghost predicate Factored(op: Op, c: Expr, e1: Expr, e2: Expr, r1: Expr, r2: Expr, env: Env) {
    && Eval(e1, env) == ApplyOp(op, Eval(c, env), Eval(r1, env))
    && Eval(e2, env) == ApplyOp(op, Eval(c, env), Eval(r2, env))
  }

  lemma EqualBinsEliminate(e1: Expr, e2: Expr) returns (r1: Expr, r2: Expr)
    requires e1.Bin? && e2.Bin? && ExprEq(e1, e2)
    ensures e1.op == e2.op && (r1, r2) == EliminateEq1(e1.op, e1, e2)
    ensures EliminateYn(r1) == EliminateYn(r2)
  {
    var r := EliminateEq1(e1.op, e1, e2);
    r1, r2 := r.0, r.1;
    assert EliminateEqPasses(e1, e2) == (r1, r2);
  }

  lemma UnitLaws(op: Op, a: Expr, env: Env)
    ensures ApplyOp(op, Eval(Symbol(Unit(op)), env), Eval(a, env)) == Eval(a, env)
    ensures ApplyOp(op, Eval(a, env), Eval(Symbol(Unit(op)), env)) == Eval(a, env)
  {
  }

  lemma FactorLeft(op: Op, e: Expr, env: Env, cl: Tri, cr: Tri, rl: Tri, rr: Tri)
    requires IsOp(op, e)
    requires Eval(e.left, env) == ApplyOp(op, cl, rl) && Eval(e.right, env) == ApplyOp(op, cr, rr)
    ensures Eval(e, env) == ApplyOp(op, ApplyOp(op, cl, cr), ApplyOp(op, rl, rr))
  {
  }

  lemma FactorTwice(op: Op, cl: Tri, cr: Tri, r: Tri)
    ensures ApplyOp(op, cl, ApplyOp(op, cr, r)) == ApplyOp(op, ApplyOp(op, cl, cr), r)
  {
  }

  /** expr_eq is sound: expressions it calls equal have the same value in every environment. */
  lemma {:induction false} ExprEqSound(e1: Expr, e2: Expr, env: Env)
    requires ExprEq(e1, e2)
    ensures Eval(e1, env) == Eval(e2, env)
    decreases Size(e1) + Size(e2), 3
  {
    if e1.Not? {
      ExprEqSound(e1.arg, e2.arg, env);
    } else if e1.Bin? {
      var r1, r2 := EqualBinsEliminate(e1, e2);
      EliminateEq1Law(e1.op, e1, e2, env);
      EliminateYnSound(r1, env);
      EliminateYnSound(r2, env);
    }
  }

  /** The key law: elimination at op takes one common factor out of both sides. */
  lemma {:induction false} EliminateEq1Law(op: Op, e1: Expr, e2: Expr, env: Env)
    ensures var (r1, r2) := EliminateEq1(op, e1, e2);
      Factored(op, CommonFactor(op, e1, e2), e1, e2, r1, r2, env)
    decreases Size(e1) + Size(e2), if IsOp(op, e1) || IsOp(op, e2) then 0 else 4
  {
    if IsOp(op, e1) {
      var (l, e2') := EliminateEq1(op, e1.left, e2);
      var (r, e2'') := EliminateEq1(op, e1.right, e2');
      var cl, cr := CommonFactor(op, e1.left, e2), CommonFactor(op, e1.right, e2');
      EliminateEq1Law(op, e1.left, e2, env);
      EliminateEq1Law(op, e1.right, e2', env);
      FactorLeft(op, e1, env, Eval(cl, env), Eval(cr, env), Eval(l, env), Eval(r, env));
      FactorTwice(op, Eval(cl, env), Eval(cr, env), Eval(e2'', env));
    } else if IsOp(op, e2) {
      var (e1', l) := EliminateEq1(op, e1, e2.left);
      var (e1'', r) := EliminateEq1(op, e1', e2.right);
      var cl, cr := CommonFactor(op, e1, e2.left), CommonFactor(op, e1', e2.right);
      EliminateEq1Law(op, e1, e2.left, env);
      EliminateEq1Law(op, e1', e2.right, env);
      FactorLeft(op, e2, env, Eval(cl, env), Eval(cr, env), Eval(l, env), Eval(r, env));
      FactorTwice(op, Eval(cl, env), Eval(cr, env), Eval(e1'', env));
    } else if EliminateEq1(op, e1, e2) != (e1, e2) {
      ExprEqSound(e1, e2, env);
      UnitLaws(op, e1, env);
    } else {
      UnitLaws(op, e1, env);
      UnitLaws(op, e2, env);
    }
  }

  /** Both passes together: there is one operator and one factor, the same in all environments, that was
      taken out of both sides. */
  lemma EliminateEqLaw(e1: Expr, e2: Expr) returns (op: Op, c: Expr)
    ensures var (r1, r2) := EliminateEq(e1, e2);
      forall env :: Factored(op, c, e1, e2, r1, r2, env)
  {
    var (p1, p2) := EliminateEqPasses(e1, e2);
    var (a1, a2) := if e1.Bin? then EliminateEq1(e1.op, e1, e2) else (e1, e2);
    if a2.Bin? && !IsOp(a2.op, a1) {
      if e1.Bin? { FirstPassIdle(e1, e2); }
      op, c := a2.op, CommonFactor(a2.op, e1, e2);
      assert (p1, p2) == EliminateEq1(op, e1, e2);
    } else if e1.Bin? {
      op, c := e1.op, CommonFactor(e1.op, e1, e2);
      assert (p1, p2) == EliminateEq1(op, e1, e2);
    } else {
      op, c := And, Symbol(SYM_YES);
      assert (p1, p2) == (e1, e2);
    }
    forall env
      ensures Factored(op, c, e1, e2, EliminateYn(p1), EliminateYn(p2), env)
    {
      if (p1, p2) == EliminateEq1(op, e1, e2) && c == CommonFactor(op, e1, e2) {
        EliminateEq1Law(op, e1, e2, env);
      }
      EliminateYnSound(p1, env);
      EliminateYnSound(p2, env);
    }
  }

  /** When the first pass leaves a second side that is still a compound of the other operator, it has changed nothing. */
  lemma FirstPassIdle(e1: Expr, e2: Expr)
    requires e1.Bin?
    requires var (a1, a2) := EliminateEq1(e1.op, e1, e2); a2.Bin? && a2.op != e1.op
    ensures EliminateEq1(e1.op, e1, e2) == (e1, e2)
  {
    OneLeafIdle(e1.op, e1, e2);
  }

  lemma {:induction false} OneLeafIdle(op: Op, e1: Expr, e2: Expr)
    requires !IsOp(op, e2) && EliminateEq1(op, e1, e2).1.Bin?
    ensures EliminateEq1(op, e1, e2) == (e1, e2)
    decreases e1
  {
    if IsOp(op, e1) {
      var e2' := EliminateEq1(op, e1.left, e2).1;
      if !e2'.Bin? {
        UnitStays(op, e1.right, e2');
      }
      OneLeafIdle(op, e1.left, e2);
      OneLeafIdle(op, e1.right, e2);
    }
  }

  lemma {:induction false} UnitStays(op: Op, e1: Expr, e2: Expr)
    requires !e2.Bin?
    ensures !EliminateEq1(op, e1, e2).1.Bin?
    decreases e1
  {
    if IsOp(op, e1) {
      UnitStays(op, e1.left, e2);
      UnitStays(op, e1.right, EliminateEq1(op, e1.left, e2).1);
    }
  }

  lemma UsedUpFactor(op: Op, c: Expr, e1: Expr, e2: Expr, r1: Expr, env: Env)
    requires Factored(op, c, e1, e2, r1, Symbol(SYM_YES), env)
    ensures Eval(e1, env) <= Eval(e2, env)
  {
  }

  /** The use made of the elimination when submenus are created: when the second side is used up, the first
      implies it. */
  lemma UsedUpImplies(e1: Expr, e2: Expr, env: Env)
    requires EliminateEq(e1, e2).1 == Symbol(SYM_YES)
    ensures Eval(e1, env) <= Eval(e2, env)
  {
    var op, c := EliminateEqLaw(e1, e2);
    var r := EliminateEq(e1, e2);
    UsedUpFactor(op, c, e1, e2, r.0, env);
  }

  // ---------- reflexivity ----------

  /** The leaves of a tree with respect to op, from left to right. */
  function Leaves(op: Op, e: Expr): (ls: seq<Expr>)
    ensures |ls| >= 1
    ensures forall i :: 0 <= i < |ls| ==> !IsOp(op, ls[i])
  {
    if IsOp(op, e) then Leaves(op, e.left) + Leaves(op, e.right) else [e]
  }

  predicate IsConstant(e: Expr) {
    e in {Symbol(SYM_YES), Symbol(SYM_NO)}
  }

  predicate AllConstant(op: Op, t: Expr) {
    if IsOp(op, t) then AllConstant(op, t.left) && AllConstant(op, t.right) else IsConstant(t)
  }

  /** The first k leaves are overwritten with the unit, except where they are constants already. */
  function ErasePrefix(op: Op, t: Expr, k: nat): (r: Expr)
    ensures IsOp(op, t) <==> IsOp(op, r)
  {
    if IsOp(op, t) then
      var n := |Leaves(op, t.left)|;
      Bin(op, ErasePrefix(op, t.left, k), ErasePrefix(op, t.right, if k < n then 0 else k - n))
    else if k == 0 || IsConstant(t) then t
    else Symbol(Unit(op))
  }

  lemma {:induction false} ConstantIdle(op: Op, s: Expr, t: Expr)
    requires IsConstant(s)
    ensures EliminateEq1(op, s, t) == (s, t)
    decreases t
  {
    if IsOp(op, t) {
      ConstantIdle(op, s, t.left);
      ConstantIdle(op, s, t.right);
    }
  }

  lemma {:induction false} AgainstConstants(op: Op, s: Expr, t: Expr)
    requires !IsOp(op, s) && AllConstant(op, t)
    ensures EliminateEq1(op, s, t) == (s, t)
    decreases t
  {
    if IsOp(op, t) {
      AgainstConstants(op, s, t.left);
      AgainstConstants(op, s, t.right);
    }
  }

  lemma {:induction false} EraseNothing(op: Op, t: Expr)
    ensures ErasePrefix(op, t, 0) == t
  {
    if IsOp(op, t) {
      EraseNothing(op, t.left);
      EraseNothing(op, t.right);
    }
  }

  lemma {:induction false} EraseAll(op: Op, t: Expr, k: nat)
    requires k >= |Leaves(op, t)|
    ensures ErasePrefix(op, t, k) == ErasePrefix(op, t, |Leaves(op, t)|)
    ensures AllConstant(op, ErasePrefix(op, t, k))
  {
    if IsOp(op, t) {
      EraseAll(op, t.left, k);
      EraseAll(op, t.left, |Leaves(op, t)|);
      EraseAll(op, t.right, k - |Leaves(op, t.left)|);
    }
  }

  /** Comparing part s of t, which starts at leaf k, erases exactly that part on both sides. */
  ghost predicate Meets(op: Op, t: Expr, k: nat, s: Expr, n: nat) {
    forall c {:trigger Compared(c)} :: Compared(c) && c == s ==>
      EliminateEq1(op, c, ErasePrefix(op, t, k)) == (ErasePrefix(op, c, n), ErasePrefix(op, t, k + n))
  }

  /** Names the comparisons that a proof looks into. */
  ghost predicate Compared(s: Expr) { true }

  lemma MeetsLeft(op: Op, t: Expr, k: nat, x: Expr)
    requires IsOp(op, t) && !IsOp(op, x) && k < |Leaves(op, t.left)| && Meets(op, t.left, k, x, 1)
    ensures Meets(op, t, k, x, 1)
  {
    assert Compared(x);
    ConstantIdle(op, ErasePrefix(op, x, 1), ErasePrefix(op, t.right, 0));
  }

  lemma MeetsRight(op: Op, t: Expr, k: nat, x: Expr)
    requires IsOp(op, t) && !IsOp(op, x) && k >= |Leaves(op, t.left)|
    requires Meets(op, t.right, k - |Leaves(op, t.left)|, x, 1)
    ensures Meets(op, t, k, x, 1)
  {
    EraseAll(op, t.left, k);
    EraseAll(op, t.left, k + 1);
    AgainstConstants(op, x, ErasePrefix(op, t.left, k));
    assert Compared(x);
  }

  lemma LeavesAreNoOps(op: Op, t: Expr, k: nat)
    requires k < |Leaves(op, t)|
    ensures !IsOp(op, Leaves(op, t)[k])
  {
  }

  /** The k-th leaf meets its own copy before any other candidate. */
  lemma {:induction false} LeafMeetsCopy(op: Op, t: Expr, k: nat)
    requires k < |Leaves(op, t)|
    requires var x := Leaves(op, t)[k]; ExprEq(x, x)
    ensures Meets(op, t, k, Leaves(op, t)[k], 1)
    decreases t
  {
    var x := Leaves(op, t)[k];
    LeavesAreNoOps(op, t, k);
    if IsOp(op, t) {
      var n := |Leaves(op, t.left)|;
      if k < n {
        LeafMeetsCopy(op, t.left, k);
        MeetsLeft(op, t, k, x);
      } else {
        LeafMeetsCopy(op, t.right, k - n);
        MeetsRight(op, t, k, x);
      }
    } else {
      MeetsItself(op, x);
    }
  }

  lemma MeetsItself(op: Op, x: Expr)
    requires !IsOp(op, x) && ExprEq(x, x)
    ensures Meets(op, x, 0, x, 1)
  {
    if IsConstant(x) {
      ConstantIdle(op, x, x);
    }
  }

  lemma MeetsBoth(op: Op, t: Expr, k: nat, s: Expr, n: nat, m: nat)
    requires IsOp(op, s) && n == |Leaves(op, s.left)| && m == |Leaves(op, s.right)|
    requires Meets(op, t, k, s.left, n) && Meets(op, t, k + n, s.right, m)
    ensures Meets(op, t, k, s, n + m)
  {
    assert Compared(s.left) && Compared(s.right);
    EraseAll(op, s.left, n + m);
  }

  /** The leaves of s are those of t from position k on. */
  ghost predicate PartAt(op: Op, t: Expr, k: nat, s: Expr) {
    var (ls, part) := (Leaves(op, t), Leaves(op, s));
    k + |part| <= |ls| && ls[k..k + |part|] == part
  }

  lemma SplitSlice<T>(ls: seq<T>, k: nat, a: seq<T>, b: seq<T>)
    requires k + |a| + |b| <= |ls| && ls[k..k + |a| + |b|] == a + b
    ensures ls[k..k + |a|] == a && ls[k + |a|..k + |a| + |b|] == b
  {
    var part := ls[k..k + |a| + |b|];
    assert ls[k..k + |a|] == part[..|a|];
    assert ls[k + |a|..k + |a| + |b|] == part[|a|..];
  }

  lemma SplitPart(op: Op, t: Expr, k: nat, s: Expr)
    requires PartAt(op, t, k, s) && IsOp(op, s)
    ensures PartAt(op, t, k, s.left) && PartAt(op, t, k + |Leaves(op, s.left)|, s.right)
  {
    SplitSlice(Leaves(op, t), k, Leaves(op, s.left), Leaves(op, s.right));
  }

  lemma LeafPart(op: Op, t: Expr, k: nat, s: Expr)
    requires PartAt(op, t, k, s) && !IsOp(op, s) && ExprEq(s, s)
    ensures Meets(op, t, k, s, |Leaves(op, s)|)
  {
    assert Leaves(op, t)[k] == Leaves(op, t)[k..k + 1][0];
    LeafMeetsCopy(op, t, k);
  }

  /** The part s of t whose leaves start at position k meets itself. */
  lemma {:induction false} PartMeetsCopy(op: Op, t: Expr, k: nat, s: Expr, bound: nat)
    requires PartAt(op, t, k, s)
    requires Size(s) <= bound && (!IsOp(op, s) ==> Size(s) < bound)
    ensures Meets(op, t, k, s, |Leaves(op, s)|)
    decreases bound, 0, s
  {
    if IsOp(op, s) {
      var n, m := |Leaves(op, s.left)|, |Leaves(op, s.right)|;
      SplitPart(op, t, k, s);
      PartMeetsCopy(op, t, k, s.left, bound);
      PartMeetsCopy(op, t, k + n, s.right, bound);
      MeetsBoth(op, t, k, s, n, m);
    } else {
      ExprEqReflexive(s);
      LeafPart(op, t, k, s);
    }
  }

  lemma {:induction false} ConstantsCollapse(op: Op, t: Expr)
    requires AllConstant(op, t)
    ensures IsConstant(EliminateYn(t))
  {
    if IsOp(op, t) {
      ConstantsCollapse(op, t.left);
      ConstantsCollapse(op, t.right);
    }
  }

  /** expr_eq is reflexive, although it finds out by eliminating operands of one copy against the other. */
  lemma {:induction false} ExprEqReflexive(e: Expr)
    ensures ExprEq(e, e)
    decreases Size(e), 1
  {
    if e.Not? {
      ExprEqReflexive(e.arg);
    } else if e.Bin? {
      var n := |Leaves(e.op, e)|;
      EraseNothing(e.op, e);
      PartMeetsCopy(e.op, e, 0, e, Size(e));
      assert Compared(e);
      var r := ErasePrefix(e.op, e, n);
      EraseAll(e.op, e, n);
      assert EliminateEqPasses(e, e) == (r, r);
      ConstantsCollapse(e.op, r);
    }
  }

  /** No operand of a chain of op makes the whole constant. */
  predicate NoZero(op: Op, t: Expr) {
    if IsOp(op, t) then NoZero(op, t.left) && NoZero(op, t.right) else t != Symbol(Zero(op))
  }

  lemma {:induction false} ErasedCollapses(op: Op, t: Expr, k: nat)
    requires k >= |Leaves(op, t)| && NoZero(op, t)
    ensures EliminateYn(ErasePrefix(op, t, k)) == Symbol(Unit(op))
  {
    if IsOp(op, t) {
      ErasedCollapses(op, t.left, k);
      ErasedCollapses(op, t.right, k - |Leaves(op, t.left)|);
    }
  }

  /** A compound uses up its copy. */
  lemma SelfUsedUp(e: Expr)
    requires e.Bin? && NoZero(e.op, e)
    ensures EliminateEq(e, e).1 == Symbol(Unit(e.op))
  {
    var n := |Leaves(e.op, e)|;
    EraseNothing(e.op, e);
    PartMeetsCopy(e.op, e, 0, e, Size(e));
    assert Compared(e);
    ErasedCollapses(e.op, e, n);
  }

  // ---------- what expr_eq decides ----------

  /** An expression up to the order and the grouping of the operands of && and ||. */
  datatype Key = SymbolKey(sym: Sym) | CompareKey(rel: Relation, l: Sym, r: Sym) | NotKey(arg: Key)
               | BinKey(op: Op, operands: multiset<Key>)

  function KeyOf(e: Expr): Key
    decreases e, 1
  {
    match e
    case Symbol(s) => SymbolKey(s)
    case Compare(rel, l, r) => CompareKey(rel, l, r)
    case Not(a) => NotKey(KeyOf(a))
    case Bin(op, _, _) => BinKey(op, Operands(op, e))
  }

  /** The operands of a chain of op, with how often each occurs. */
  function Operands(op: Op, e: Expr): multiset<Key>
    decreases e, if IsOp(op, e) then 0 else 2
  {
    if IsOp(op, e) then Operands(op, e.left) + Operands(op, e.right) else multiset{KeyOf(e)}
  }

  /** No operand of && or ||, however deep, is y or n. */
  predicate Pure(e: Expr) {
    match e
    case Symbol(_) => true
    case Compare(_, _, _) => true
    case Not(a) => Pure(a)
    case Bin(_, l, r) => Pure(l) && Pure(r) && !IsConstant(l) && !IsConstant(r)
  }

  /** A chain of op whose operands are pure, or have been replaced by the unit. */
  predicate Reduced(op: Op, t: Expr) {
    if IsOp(op, t) then Reduced(op, t.left) && Reduced(op, t.right)
    else t == Symbol(Unit(op)) || (Pure(t) && !IsConstant(t))
  }

  /** The operands that have not been replaced. */
  function Remaining(op: Op, t: Expr): multiset<Key> {
    if IsOp(op, t) then Remaining(op, t.left) + Remaining(op, t.right)
    else if t == Symbol(Unit(op)) then multiset{}
    else multiset{KeyOf(t)}
  }

  lemma {:induction false} PureReduced(op: Op, t: Expr)
    requires Pure(t) && !IsConstant(t)
    ensures Reduced(op, t) && Remaining(op, t) == Operands(op, t)
  {
    if IsOp(op, t) {
      PureReduced(op, t.left);
      PureReduced(op, t.right);
    }
  }

  /** Taking x out of l + r is taking it out of l first, and what is left of it out of r. */
  lemma DifferenceInTwo<T>(l: multiset<T>, r: multiset<T>, x: multiset<T>)
    ensures (l - x) + (r - (x - l)) == (l + r) - x && (x - l) - r == x - (l + r)
  {
    forall k: T {:trigger Wanted(k)}
      ensures ((l - x) + (r - (x - l)))[k] == ((l + r) - x)[k] && ((x - l) - r)[k] == (x - (l + r))[k]
    {
    }
    assert forall k: T :: Wanted(k) ==> ((l - x) + (r - (x - l)))[k] == ((l + r) - x)[k];
  }

  ghost predicate Wanted<T>(k: T) { true }

  /** One side p and the other q of what elimination makes of two chains with the operands m and n. */
  ghost predicate Cancelled(op: Op, p: Expr, q: Expr, m: multiset<Key>, n: multiset<Key>) {
    Reduced(op, p) && Reduced(op, q) && Remaining(op, p) == m - n && Remaining(op, q) == n - m
  }

  lemma CancelledTwice(
    op: Op, l: Expr, r: Expr, x': Expr, q: Expr, a: multiset<Key>, b: multiset<Key>, n: multiset<Key>)
    requires Cancelled(op, l, x', a, n) && Cancelled(op, r, q, b, Remaining(op, x'))
    ensures Cancelled(op, Bin(op, l, r), q, a + b, n)
  {
    DifferenceInTwo(a, b, n);
    assert Remaining(op, Bin(op, l, r)) == Remaining(op, l) + Remaining(op, r);
  }

  lemma CancelledOther(op: Op, p: Expr, q: Expr, m: multiset<Key>, n: multiset<Key>)
    ensures Cancelled(op, p, q, m, n) <==> Cancelled(op, q, p, n, m)
  {
  }

  lemma CancelledMirrored(
    op: Op, t': Expr, l: Expr, p: Expr, q: Expr, m: multiset<Key>, a: multiset<Key>, b: multiset<Key>)
    requires Cancelled(op, t', l, m, a) && Cancelled(op, p, q, Remaining(op, t'), b)
    ensures Cancelled(op, p, Bin(op, l, q), m, a + b)
  {
    CancelledOther(op, t', l, m, a);
    CancelledOther(op, p, q, Remaining(op, t'), b);
    CancelledTwice(op, l, q, t', p, a, b, m);
    CancelledOther(op, p, Bin(op, l, q), m, a + b);
  }

  /** The walk over two chains takes out of each what the other has, as often as the other has it. */
  ghost predicate Cancels(op: Op, t: Expr, x: Expr) {
    var (p, q) := EliminateEq1(op, t, x);
    Cancelled(op, p, q, Remaining(op, t), Remaining(op, x))
  }

  lemma CancelsLeft(op: Op, t: Expr, x: Expr, x': Expr)
    requires IsOp(op, t) && x' == EliminateEq1(op, t.left, x).1 && Cancels(op, t.left, x) && Cancels(op, t.right, x')
    ensures Cancels(op, t, x)
  {
    var (l, (p, q)) := (EliminateEq1(op, t.left, x).0, EliminateEq1(op, t.right, x'));
    CancelledTwice(op, l, p, x', q, Remaining(op, t.left), Remaining(op, t.right), Remaining(op, x));
  }

  lemma CancelsRight(op: Op, t: Expr, x: Expr, t': Expr, l: Expr, p: Expr, q: Expr)
    requires !IsOp(op, t) && IsOp(op, x)
    requires (t', l) == EliminateEq1(op, t, x.left) && (p, q) == EliminateEq1(op, t', x.right)
    requires Cancelled(op, t', l, Remaining(op, t), Remaining(op, x.left))
    requires Cancelled(op, p, q, Remaining(op, t'), Remaining(op, x.right))
    ensures Cancelled(op, p, Bin(op, l, q), Remaining(op, t), Remaining(op, x))
  {
    CancelledMirrored(op, t', l, p, q, Remaining(op, t), Remaining(op, x.left), Remaining(op, x.right));
  }

  lemma RightUnfolds(op: Op, t: Expr, x: Expr)
    requires !IsOp(op, t) && IsOp(op, x)
    ensures var (t', l) := EliminateEq1(op, t, x.left);
      var (p, q) := EliminateEq1(op, t', x.right);
      EliminateEq1(op, t, x) == (p, Bin(op, l, q))
  {
  }

  lemma CancelsLeaf(op: Op, t: Expr, x: Expr)
    requires !IsOp(op, t) && !IsOp(op, x) && Reduced(op, t) && Reduced(op, x)
    requires t != Symbol(Unit(op)) && x != Symbol(Unit(op)) && (ExprEq(t, x) <==> KeyOf(t) == KeyOf(x))
    ensures Cancels(op, t, x)
  {
  }

  lemma {:induction false} EliminateEq1Cancels(op: Op, t: Expr, x: Expr, bound: nat)
    requires Reduced(op, t) && Reduced(op, x)
    requires Size(t) <= bound && (!IsOp(op, t) ==> Size(t) < bound)
    ensures Cancels(op, t, x)
    decreases bound, 0, Size(t) + Size(x)
  {
    if IsOp(op, t) {
      var x' := EliminateEq1(op, t.left, x).1;
      EliminateEq1Cancels(op, t.left, x, bound);
      EliminateEq1Cancels(op, t.right, x', bound);
      CancelsLeft(op, t, x, x');
    } else if IsOp(op, x) {
      var t' := EliminateEq1(op, t, x.left).0;
      EliminateEq1Cancels(op, t, x.left, bound);
      EliminateEq1Cancels(op, t', x.right, bound);
      RightUnfolds(op, t, x);
      var (l, (p, q)) := (EliminateEq1(op, t, x.left).1, EliminateEq1(op, t', x.right));
      CancelsRight(op, t, x, t', l, p, q);
    } else if t == Symbol(Unit(op)) || x == Symbol(Unit(op)) {
      UnitIdle(op, t, x);
    } else {
      ExprEqDecides(t, x);
      CancelsLeaf(op, t, x);
    }
  }

  lemma UnitIdle(op: Op, t: Expr, x: Expr)
    requires Reduced(op, t) && Reduced(op, x) && !IsOp(op, t) && !IsOp(op, x)
    requires t == Symbol(Unit(op)) || x == Symbol(Unit(op))
    ensures EliminateEq1(op, t, x) == (t, x) && Cancels(op, t, x)
  {
    assert EliminateEq1(op, t, x) == (t, x);
  }

  /** What is left of a chain without its units: r has the operands m. */
  ghost predicate LeftOver(op: Op, r: Expr, m: multiset<Key>) {
    && (|m| == 0 ==> r == Symbol(Unit(op)))
    && (|m| == 1 ==> !IsOp(op, r) && m == multiset{KeyOf(r)} && !IsConstant(r))
    && (|m| >= 2 ==> IsOp(op, r))
  }

  lemma LeftOverBin(op: Op, l: Expr, r: Expr, a: multiset<Key>, b: multiset<Key>)
    requires LeftOver(op, l, a) && LeftOver(op, r, b)
    ensures var both :=
        if l == Symbol(Zero(op)) then l else if l == Symbol(Unit(op)) then r
        else if r == Symbol(Zero(op)) then r else if r == Symbol(Unit(op)) then l else Bin(op, l, r);
      LeftOver(op, both, a + b)
  {
    assert |a + b| == |a| + |b|;
    assert |a| == 0 ==> a == multiset{} && a + b == b;
    assert |b| == 0 ==> b == multiset{} && a + b == a;
  }

  lemma {:induction false} YnRemaining(op: Op, t: Expr)
    requires Reduced(op, t)
    ensures LeftOver(op, EliminateYn(t), Remaining(op, t))
  {
    if IsOp(op, t) {
      YnRemaining(op, t.left);
      YnRemaining(op, t.right);
      LeftOverBin(op, EliminateYn(t.left), EliminateYn(t.right), Remaining(op, t.left), Remaining(op, t.right));
    } else if t != Symbol(Unit(op)) {
      PureIsClean(t);
      EliminateYnComplete(t);
      assert |multiset{KeyOf(t)}| == 1;
    }
  }

  lemma {:induction false} PureIsClean(t: Expr)
    requires Pure(t)
    ensures NoConstantOperands(t)
  {
    if t.Bin? {
      PureIsClean(t.left);
      PureIsClean(t.right);
    }
  }

  lemma BinDecides(e1: Expr, e2: Expr)
    requires e1.Bin? && e2.Bin? && e1.op == e2.op && Cancels(e1.op, e1, e2)
    requires Remaining(e1.op, e1) == Operands(e1.op, e1) && Remaining(e1.op, e2) == Operands(e1.op, e2)
    ensures ExprEq(e1, e2) <==> Operands(e1.op, e1) == Operands(e1.op, e2)
  {
    var (p, q) := EliminateEq1(e1.op, e1, e2);
    assert EliminateEqPasses(e1, e2) == (p, q);
    YnRemaining(e1.op, p);
    YnRemaining(e1.op, q);
    RestsEqual(e1.op, EliminateYn(p), EliminateYn(q), Operands(e1.op, e1), Operands(e1.op, e2));
  }

  /** Both sides are reduced to the same symbol only if nothing is left of them. */
  lemma RestsEqual(op: Op, p: Expr, q: Expr, a: multiset<Key>, b: multiset<Key>)
    requires LeftOver(op, p, a - b) && LeftOver(op, q, b - a)
    ensures (p.Symbol? && q.Symbol? && p.sym == q.sym) <==> a == b
  {
    SameMultiset(a, b);
    if |a - b| == 1 && |b - a| == 1 {
      var (k, l) := (KeyOf(p), KeyOf(q));
      assert k in a - b && l in b - a;
      assert k != l;
    }
  }

  lemma SameMultiset<T>(a: multiset<T>, b: multiset<T>)
    ensures a == b <==> |a - b| == 0 && |b - a| == 0
  {
    if |a - b| == 0 && |b - a| == 0 {
      assert a - b == multiset{} && b - a == multiset{};
      forall k: T {:trigger a[k]}
        ensures a[k] == b[k]
      {
        assert (a - b)[k] == 0 && (b - a)[k] == 0;
      }
    }
  }

  /** expr_eq decides equality up to the order and the grouping of operands, each as often as it occurs. */
  lemma {:induction false} ExprEqDecides(e1: Expr, e2: Expr)
    requires Pure(e1) && Pure(e2)
    ensures ExprEq(e1, e2) <==> KeyOf(e1) == KeyOf(e2)
    decreases Size(e1), 1
  {
    if e1.Not? && e2.Not? {
      ExprEqDecides(e1.arg, e2.arg);
    } else if e1.Bin? && e2.Bin? && e1.op == e2.op {
      PureReduced(e1.op, e1);
      PureReduced(e1.op, e2);
      EliminateEq1Cancels(e1.op, e1, e2, Size(e1));
      BinDecides(e1, e2);
    }
  }

  /** What elimination leaves of two sides: of each operand as many as one side had more of than the other. */
  ghost predicate Shared(op: Op, e1: Expr, e2: Expr, p: Expr, q: Expr) {
    && Remaining(op, p) == Operands(op, e1) - Operands(op, e2)
    && Remaining(op, q) == Operands(op, e2) - Operands(op, e1)
    && Remaining(op, p) !! Remaining(op, q)
  }

  lemma CancelsShared(op: Op, e1: Expr, e2: Expr)
    requires Pure(e1) && Pure(e2) && !IsConstant(e1) && !IsConstant(e2)
    ensures var (p, q) := EliminateEq1(op, e1, e2); Shared(op, e1, e2, p, q)
  {
    PureReduced(op, e1);
    PureReduced(op, e2);
    EliminateEq1Cancels(op, e1, e2, Size(e1) + 1);
  }

  lemma {:induction false} LeafUnchanged(op: Op, t: Expr, x: Expr)
    requires !IsOp(op, t) && t.Bin?
    ensures var (p, q) := EliminateEq1(op, t, x); p == Symbol(Unit(op)) || (p == t && q == x)
    decreases Size(x)
  {
    if IsOp(op, x) {
      LeafUnchanged(op, t, x.left);
      var t' := EliminateEq1(op, t, x.left).0;
      if t' == t {
        LeafUnchanged(op, t, x.right);
      } else {
        UnitAgainst(op, x.right);
      }
    }
  }

  lemma {:induction false} UnitAgainst(op: Op, x: Expr)
    ensures EliminateEq1(op, Symbol(Unit(op)), x).0 == Symbol(Unit(op))
    decreases x
  {
    if IsOp(op, x) {
      UnitAgainst(op, x.left);
      UnitAgainst(op, x.right);
    }
  }

  /** After expr_eliminate_eq the two sides share no operand of op, whichever of them is a chain of op, unless that
      chain as a whole was an operand of the other side. */
  lemma NothingShared(e1: Expr, e2: Expr, op: Op)
    requires Pure(e1) && Pure(e2) && !IsConstant(e1) && !IsConstant(e2)
    requires IsOp(op, e1) || IsOp(op, e2)
    ensures var (p, q) := EliminateEqPasses(e1, e2); IsOp(op, p) || IsOp(op, q) ==> Shared(op, e1, e2, p, q)
  {
    CancelsShared(op, e1, e2);
    if !e1.Bin? {
      assert EliminateEqPasses(e1, e2) == EliminateEq1(op, e1, e2);
    } else {
      var (a1, a2) := EliminateEq1(e1.op, e1, e2);
      if a2.Bin? && !IsOp(a2.op, a1) {
        SecondPass(e1, e2, op);
      } else {
        assert EliminateEqPasses(e1, e2) == (a1, a2);
        if e1.op != op {
          LeafOrUnitRight(e1.op, e1, e2);
        }
      }
    }
  }

  lemma SecondPass(e1: Expr, e2: Expr, op: Op)
    requires e1.Bin? && (IsOp(op, e1) || IsOp(op, e2))
    requires var (a1, a2) := EliminateEq1(e1.op, e1, e2); a2.Bin? && !IsOp(a2.op, a1)
    ensures var (p, q) := EliminateEqPasses(e1, e2);
      IsOp(op, p) || IsOp(op, q) ==> (p, q) == EliminateEq1(op, e1, e2)
  {
    FirstPassIdle(e1, e2);
    PassedTwice(e1, e2);
    if op == e1.op {
      LeafUnchanged(e2.op, e1, e2);
    }
  }

  lemma PassedTwice(e1: Expr, e2: Expr)
    requires e1.Bin? && e2.Bin? && e2.op != e1.op && EliminateEq1(e1.op, e1, e2) == (e1, e2)
    ensures EliminateEqPasses(e1, e2) == EliminateEq1(e2.op, e1, e2)
  {
  }

  /** A side that is no chain of op is left alone or becomes the unit. */
  lemma {:induction false} LeafOrUnitRight(op: Op, t: Expr, x: Expr)
    requires !IsOp(op, x)
    ensures EliminateEq1(op, t, x).1 in {x, Symbol(Unit(op))}
    decreases t
  {
    if IsOp(op, t) {
      LeafOrUnitRight(op, t.left, x);
      LeafOrUnitRight(op, t.right, EliminateEq1(op, t.left, x).1);
    }
  }
}
