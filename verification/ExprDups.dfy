/** Joining duplicate, redundant and contradictory operands. */
module Duplicates {
  import opened Wrappers
  import opened CStrings
  import opened Exprs
  import opened Elimination

  // ---------- joining two operands ----------

  predicate EqualityTest(e: Expr) {
    e.Compare? && (e.rel.Equal? || e.rel.Unequal?)
  }

  /** The symbol an equality test or plain symbol is about. */
  function LeftSym(e: Expr): Option<Sym> {
    if e.Symbol? then Some(e.sym)
    else if EqualityTest(e) then Some(e.lsym)
    else None
  }

  /** The symbol both operands are about, when the code looks at the pair at all. */
  function CommonSubject(e1: Expr, e2: Expr): Option<Sym> {
    var s1 := if e1.Not? then LeftSym(e1.arg) else LeftSym(e1);
    var s2 := if e2.Not? then (if e2.arg.Symbol? then Some(e2.arg.sym) else None) else LeftSym(e2);
    if s1.Some? && s1 == s2 && (s1.value.typ.Boolean? || s1.value.typ.Tristate?) then s1 else None
  }

  predicate Tests(rel: Relation, e: Expr, value: Sym) {
    e.Compare? && e.rel == rel && e.rsym == value
  }

  /** Both operands are tests of kind rel, one against x and the other against y. */
  predicate TestPair(rel: Relation, e1: Expr, e2: Expr, x: Sym, y: Sym) {
    (Tests(rel, e1, x) && Tests(rel, e2, y)) || (Tests(rel, e1, y) && Tests(rel, e2, x))
  }

  /** One operand is the plain symbol, the other a test of it. */
  predicate SymbolAndTest(rel: Relation, e1: Expr, e2: Expr, value: Sym) {
    (e1.Symbol? && Tests(rel, e2, value)) || (e2.Symbol? && Tests(rel, e1, value))
  }

  predicate SymbolAndNegation(e1: Expr, e2: Expr) {
    (e1.Not? && e1.arg.Symbol? && e2.Symbol?) || (e2.Not? && e2.arg.Symbol? && e1.Symbol?)
  }

  /** The rules of expr_join_or for operands about the same symbol. */
  function ContractOr(s: Sym, e1: Expr, e2: Expr): Option<Expr> {
    if s.typ.Tristate? && TestPair(Equal, e1, e2, SYM_YES, SYM_MOD) then Some(Compare(Unequal, s, SYM_NO))
    else if s.typ.Tristate? && TestPair(Equal, e1, e2, SYM_YES, SYM_NO) then Some(Compare(Unequal, s, SYM_MOD))
    else if s.typ.Tristate? && TestPair(Equal, e1, e2, SYM_MOD, SYM_NO) then Some(Compare(Unequal, s, SYM_YES))
    else if s.typ.Boolean? && SymbolAndNegation(e1, e2) then Some(Symbol(SYM_YES))
    else None
  }

  /** The rules of expr_join_and for operands about the same symbol. */
  function ContractAnd(s: Sym, e1: Expr, e2: Expr): Option<Expr> {
    if SymbolAndTest(Equal, e1, e2, SYM_YES) then Some(Compare(Equal, s, SYM_YES))
    else if SymbolAndTest(Unequal, e1, e2, SYM_NO) then Some(Symbol(s))
    else if SymbolAndTest(Unequal, e1, e2, SYM_MOD) then Some(Compare(Equal, s, SYM_YES))
    else if !s.typ.Tristate? then None
    else if ConstantTests(e1, e2) then
      Some(if e1.rsym != e2.rsym then Compare(Equal, s, e1.rsym) else Symbol(SYM_NO))
    else if ConstantTests(e2, e1) then
      Some(if e1.rsym != e2.rsym then Compare(Equal, s, e2.rsym) else Symbol(SYM_NO))
    else if TestPair(Unequal, e1, e2, SYM_YES, SYM_NO) then Some(Compare(Equal, s, SYM_MOD))
    else if TestPair(Unequal, e1, e2, SYM_YES, SYM_MOD) then Some(Compare(Equal, s, SYM_NO))
    else if TestPair(Unequal, e1, e2, SYM_MOD, SYM_NO) then Some(Compare(Equal, s, SYM_YES))
    else None
  }

  /** expr_join_or and expr_join_and: a replacement for e1 op e2, if the code knows one. */
  function Join(op: Op, e1: Expr, e2: Expr): (r: Option<Expr>)
    ensures r.Some? ==> r.value == e1 || r.value.Symbol? || r.value.Compare?
  {
    if ExprEq(e1, e2) then Some(e1)
    else
      match CommonSubject(e1, e2)
      case None => None
      case Some(s) => if op.Or? then ContractOr(s, e1, e2) else ContractAnd(s, e1, e2)
  }

  /** a = 'b' and a != 'c' with constants on the right. */
  predicate ConstantTests(e1: Expr, e2: Expr) {
    && e1.Compare? && e1.rel.Equal? && e1.rsym.isConst
    && e2.Compare? && e2.rel.Unequal? && e2.rsym.isConst
  }

  // ---------- soundness of the joins ----------

  /** Constants that a tristate is tested against are y, m, n or strings that no tristate value equals:
      a constant such as '0' or '2' would compare as a number. */
  predicate PlainTest(e: Expr)
    requires e.Compare?
  {
    EqualityTest(e) && e.lsym.typ.Tristate? && e.rsym.isConst ==>
      e.rsym.typ.Unknown? && (e.rsym in {SYM_YES, SYM_MOD, SYM_NO} || MatchIndex(e.rsym) == -1)
  }

  /** All tests are plain; when nnf is set, ! is only applied to symbols. */
  predicate Fits(nnf: bool, e: Expr) {
    match e
    case Symbol(_) => true
    case Compare(_, _, _) => PlainTest(e)
    case Not(a) => (nnf ==> a.Symbol?) && Fits(nnf, a)
    case Bin(_, l, r) => Fits(nnf, l) && Fits(nnf, r)
  }

  lemma TestValue(env: Env, e: Expr)
    requires Typed(env) && EqualityTest(e) && (e.lsym.typ.Boolean? || e.lsym.typ.Tristate?) && e.rsym.typ.Unknown?
    ensures Eval(e, env) == FromBool((MatchIndex(e.rsym) == TriOf(env, e.lsym)) == e.rel.Equal?)
  {
    EqualToConstant(env, e.lsym, e.rsym);
  }

  /** The value of an operand about one symbol, as a function of that symbol's value v. */
  function LocalEval(e: Expr, v: Tri): Tri {
    match e
    case Symbol(s) => if s == SYM_YES then YES else if s == SYM_NO then NO else v
    case Compare(rel, _, c) =>
      FromBool((v == (if c == SYM_NO then NO else if c == SYM_MOD then MOD else YES)) == rel.Equal?)
    case Not(a) => if a.Symbol? then TriNot(v) else NO
    case Bin(_, _, _) => NO
  }

  predicate IsLocal(s: Sym, e: Expr) {
    match e
    case Symbol(t) => t == s || t in {SYM_YES, SYM_NO}
    case Compare(rel, t, c) => t == s && (rel.Equal? || rel.Unequal?) && c in {SYM_YES, SYM_MOD, SYM_NO}
    case Not(a) => a == Symbol(s)
    case Bin(_, _, _) => false
  }

  lemma LocalEvalCorrect(s: Sym, e: Expr, env: Env)
    requires Typed(env) && (s.typ.Boolean? || s.typ.Tristate?) && IsLocal(s, e)
    ensures Eval(e, env) == LocalEval(e, TriOf(env, s))
  {
    if e.Compare? {
      ParseTriNames();
      TestValue(env, e);
    }
  }

  lemma ContractOrLocal(s: Sym, e1: Expr, e2: Expr, v: Tri)
    requires CommonSubject(e1, e2) == Some(s) && ContractOr(s, e1, e2).Some? && (s.typ.Boolean? ==> v != MOD)
    ensures IsLocal(s, e1) && IsLocal(s, e2) && IsLocal(s, ContractOr(s, e1, e2).value)
    ensures LocalEval(ContractOr(s, e1, e2).value, v) == TriOr(LocalEval(e1, v), LocalEval(e2, v))
  {
  }

  lemma ContractOrSound(s: Sym, e1: Expr, e2: Expr, env: Env)
    requires Typed(env) && CommonSubject(e1, e2) == Some(s) && ContractOr(s, e1, e2).Some?
    ensures Eval(ContractOr(s, e1, e2).value, env) == TriOr(Eval(e1, env), Eval(e2, env))
  {
    ContractOrLocal(s, e1, e2, TriOf(env, s));
    LocalEvalCorrect(s, e1, env);
    LocalEvalCorrect(s, e2, env);
    LocalEvalCorrect(s, ContractOr(s, e1, e2).value, env);
  }

  /** The one unsound rule: two different constants that denote the same tristate value. */
  predicate Clash(e1: Expr, e2: Expr) {
    && (ConstantTests(e1, e2) || ConstantTests(e2, e1))
    && e1.rsym != e2.rsym && MatchIndex(e1.rsym) == MatchIndex(e2.rsym) != -1
  }

  predicate UntypedConstants(e: Expr) {
    e.Compare? && e.rsym.isConst ==> e.rsym.typ.Unknown?
  }

  lemma ConstantTestsSound(s: Sym, e1: Expr, e2: Expr, env: Env)
    requires Typed(env) && CommonSubject(e1, e2) == Some(s) && s.typ.Tristate?
    requires ConstantTests(e1, e2) && UntypedConstants(e1) && UntypedConstants(e2)
    ensures Eval(ContractAnd(s, e1, e2).value, env) == TriAnd(Eval(e1, env), Eval(e2, env))
        || (Clash(e1, e2) && MatchIndex(e1.rsym) == TriOf(env, s))
    ensures Eval(ContractAnd(s, e2, e1).value, env) == TriAnd(Eval(e1, env), Eval(e2, env))
        || (Clash(e1, e2) && MatchIndex(e1.rsym) == TriOf(env, s))
    ensures Clash(e1, e2) && MatchIndex(e1.rsym) == TriOf(env, s) ==>
        && Eval(ContractAnd(s, e1, e2).value, env) == Eval(ContractAnd(s, e2, e1).value, env) == YES
        && TriAnd(Eval(e1, env), Eval(e2, env)) == NO
  {
    TestValue(env, e1);
    TestValue(env, e2);
  }

  lemma ContractAndLocal(s: Sym, e1: Expr, e2: Expr, v: Tri)
    requires CommonSubject(e1, e2) == Some(s) && ContractAnd(s, e1, e2).Some? && (s.typ.Boolean? ==> v != MOD)
    requires s.typ.Tristate? ==> !ConstantTests(e1, e2) && !ConstantTests(e2, e1)
    ensures IsLocal(s, e1) && IsLocal(s, e2) && IsLocal(s, ContractAnd(s, e1, e2).value)
    ensures LocalEval(ContractAnd(s, e1, e2).value, v) == TriAnd(LocalEval(e1, v), LocalEval(e2, v))
  {
  }

  lemma OtherTestsSound(s: Sym, e1: Expr, e2: Expr, env: Env)
    requires Typed(env) && CommonSubject(e1, e2) == Some(s) && ContractAnd(s, e1, e2).Some?
    requires s.typ.Tristate? ==> !ConstantTests(e1, e2) && !ConstantTests(e2, e1)
    ensures Eval(ContractAnd(s, e1, e2).value, env) == TriAnd(Eval(e1, env), Eval(e2, env))
  {
    ContractAndLocal(s, e1, e2, TriOf(env, s));
    LocalEvalCorrect(s, e1, env);
    LocalEvalCorrect(s, e2, env);
    LocalEvalCorrect(s, ContractAnd(s, e1, e2).value, env);
  }

  lemma ContractAndSound(s: Sym, e1: Expr, e2: Expr, env: Env)
    requires Typed(env) && CommonSubject(e1, e2) == Some(s) && ContractAnd(s, e1, e2).Some?
    requires !Clash(e1, e2) && UntypedConstants(e1) && UntypedConstants(e2)
    ensures Eval(ContractAnd(s, e1, e2).value, env) == TriAnd(Eval(e1, env), Eval(e2, env))
  {
    if s.typ.Tristate? && ConstantTests(e1, e2) {
      ConstantTestsSound(s, e1, e2, env);
    } else if s.typ.Tristate? && ConstantTests(e2, e1) {
      ConstantTestsSound(s, e2, e1, env);
    } else {
      OtherTestsSound(s, e1, e2, env);
    }
  }

  lemma JoinSound(op: Op, e1: Expr, e2: Expr, env: Env)
    requires Typed(env) && Join(op, e1, e2).Some?
    requires op.And? ==> !Clash(e1, e2) && UntypedConstants(e1) && UntypedConstants(e2)
    ensures Eval(Join(op, e1, e2).value, env) == ApplyOp(op, Eval(e1, env), Eval(e2, env))
  {
    if ExprEq(e1, e2) {
      ExprEqSound(e1, e2, env);
    } else if op.Or? {
      ContractOrSound(CommonSubject(e1, e2).value, e1, e2, env);
    } else {
      ContractAndSound(CommonSubject(e1, e2).value, e1, e2, env);
    }
  }

  /** An environment in which every tristate has the given value. */
  ghost function Uniform(v: Tri): Env {
    Env((s: Sym) => if s.typ.Tristate? then v else NO, (s: Sym) => "", SYM_YES)
  }

  /** expr_join_and is exact in all typed environments if and only if it does not meet a clash. */
  lemma JoinAndExact(e1: Expr, e2: Expr)
    requires Join(And, e1, e2).Some? && UntypedConstants(e1) && UntypedConstants(e2)
    requires CommonSubject(e1, e2).Some? ==> CommonSubject(e1, e2).value.typ.Tristate?
    ensures (forall env | Typed(env) :: Eval(Join(And, e1, e2).value, env) == TriAnd(Eval(e1, env), Eval(e2, env)))
       <==> !Clash(e1, e2)
  {
    if Clash(e1, e2) {
      var s := CommonSubject(e1, e2).value;
      var env := Uniform(MatchIndex(e1.rsym));
      assert Typed(env) && TriOf(env, s) == MatchIndex(e1.rsym);
      if ConstantTests(e1, e2) {
        ConstantTestsSound(s, e1, e2, env);
      } else {
        ConstantTestsSound(s, e2, e1, env);
      }
    } else {
      forall env | Typed(env)
        ensures Eval(Join(And, e1, e2).value, env) == TriAnd(Eval(e1, env), Eval(e2, env))
      {
        JoinSound(And, e1, e2, env);
      }
    }
  }

  lemma TwoMatches(two: Sym)
    requires two == Sym(4, "2", Unknown, true)
    ensures MatchIndex(two) == 2
  {
    assert SkipSpaces("2", 0) == 0;
    assert ScanDigits("2", 0, 10, 0) == (2, 1) by { assert ScanDigits("2", 1, 10, 2) == (2, 1); }
  }

  /** A concrete clash: A='2' && A!='y' is joined to A='2', which is y when A is y, while the conjunction is n. */
  lemma NumericConstantClash()
    ensures var a, two := Sym(3, "A", Tristate, false), Sym(4, "2", Unknown, true);
      var e1, e2 := Compare(Equal, a, two), Compare(Unequal, a, SYM_YES);
      && Join(And, e1, e2) == Some(e1)
      && Eval(e1, Uniform(YES)) == YES
      && TriAnd(Eval(e1, Uniform(YES)), Eval(e2, Uniform(YES))) == NO
  {
    var a, two := Sym(3, "A", Tristate, false), Sym(4, "2", Unknown, true);
    TwoMatches(two);
    ParseTriNames();
    ClashValues(a, two);
  }

  lemma ClashValues(a: Sym, two: Sym)
    requires a.typ.Tristate? && two.typ.Unknown? && two.isConst && two != SYM_YES && two != SYM_MOD && two != SYM_NO
    requires MatchIndex(two) == 2 && MatchIndex(SYM_YES) == 2
    ensures var e1, e2 := Compare(Equal, a, two), Compare(Unequal, a, SYM_YES);
      Join(And, e1, e2) == Some(e1) && Eval(e1, Uniform(YES)) == YES && Eval(e2, Uniform(YES)) == NO
  {
    TestValue(Uniform(YES), Compare(Equal, a, two));
    TestValue(Uniform(YES), Compare(Unequal, a, SYM_YES));
  }

  lemma FitsConstants(nnf: bool, e1: Expr, e2: Expr)
    requires Fits(nnf, e1) && Fits(nnf, e2)
    requires CommonSubject(e1, e2).Some? && CommonSubject(e1, e2).value.typ.Tristate?
    ensures ConstantTests(e1, e2) || ConstantTests(e2, e1) ==> UntypedConstants(e1) && UntypedConstants(e2)
  {
  }

  lemma FitsNoClash(nnf: bool, e1: Expr, e2: Expr)
    requires Fits(nnf, e1) && Fits(nnf, e2)
    requires CommonSubject(e1, e2).Some? && CommonSubject(e1, e2).value.typ.Tristate?
    ensures !Clash(e1, e2)
  {
    ParseTriNames();
  }

  lemma JoinFits(nnf: bool, op: Op, e1: Expr, e2: Expr)
    requires Fits(nnf, e1) && Fits(nnf, e2) && Join(op, e1, e2).Some?
    ensures Fits(nnf, Join(op, e1, e2).value)
  {
  }

  // ---------- a pass over one level of operands ----------

  function TotalSize(ls: seq<Expr>): nat {
    if ls == [] then 0 else Size(ls[0]) + TotalSize(ls[1..])
  }

  lemma {:induction false} TotalSizeUpdate(ls: seq<Expr>, i: nat, x: Expr)
    requires i < |ls|
    ensures TotalSize(ls[i := x]) == TotalSize(ls) - Size(ls[i]) + Size(x)
    ensures Size(ls[i]) <= TotalSize(ls)
    ensures |ls| >= 2 ==> Size(ls[i]) < TotalSize(ls)
  {
    if i > 0 {
      TotalSizeUpdate(ls[1..], i - 1, x);
      assert ls[i := x][1..] == ls[1..][i - 1 := x];
    } else {
      assert ls[i := x][1..] == ls[1..];
    }
  }

  lemma {:induction false} TotalSizeConcat(a: seq<Expr>, b: seq<Expr>)
    ensures TotalSize(a + b) == TotalSize(a) + TotalSize(b)
  {
    if a == [] {
      assert a + b == b;
    } else {
      TotalSizeConcat(a[1..], b);
      assert (a + b)[1..] == a[1..] + b;
    }
  }

  lemma {:induction false} LeavesSize(op: Op, e: Expr)
    ensures Size(e) == TotalSize(Leaves(op, e)) + |Leaves(op, e)| - 1
  {
    if IsOp(op, e) {
      LeavesSize(op, e.left);
      LeavesSize(op, e.right);
      TotalSizeConcat(Leaves(op, e.left), Leaves(op, e.right));
    } else {
      assert TotalSize([e]) == Size(e) + TotalSize([e][1..]);
    }
  }

  predicate AreLeaves(op: Op, ls: seq<Expr>) {
    forall i :: 0 <= i < |ls| ==> !IsOp(op, ls[i])
  }

  /** The tree shape with its leaves with respect to op replaced. */
  function Rebuild(op: Op, shape: Expr, ls: seq<Expr>): (r: Expr)
    requires |ls| == |Leaves(op, shape)| && AreLeaves(op, ls)
    ensures IsOp(op, r) <==> IsOp(op, shape)
  {
    if IsOp(op, shape) then
      var n := |Leaves(op, shape.left)|;
      Bin(op, Rebuild(op, shape.left, ls[..n]), Rebuild(op, shape.right, ls[n..]))
    else ls[0]
  }

  lemma {:induction false} RebuildLeaves(op: Op, shape: Expr, ls: seq<Expr>)
    requires |ls| == |Leaves(op, shape)| && AreLeaves(op, ls)
    ensures Leaves(op, Rebuild(op, shape, ls)) == ls
  {
    if IsOp(op, shape) {
      var n := |Leaves(op, shape.left)|;
      RebuildLeaves(op, shape.left, ls[..n]);
      RebuildLeaves(op, shape.right, ls[n..]);
    }
  }

  /** What a pass leaves behind: the operands and the number of simplifications made. */
  datatype Pass = Pass(ls: seq<Expr>, count: nat)

  ghost predicate PassOf(op: Op, ls: seq<Expr>, p: Pass) {
    |p.ls| == |ls| && AreLeaves(op, p.ls) && TotalSize(p.ls) <= TotalSize(ls)
  }

  /** One comparison of operand i with operand j. Operand i, if it is a compound of the other operator, is
      first simplified by itself; a successful join leaves the unit in slot i and the result in slot j. */
  function JoinAt(op: Op, ls: seq<Expr>, i: nat, j: nat): (p: Pass)
    requires AreLeaves(op, ls) && i < |ls| && j < |ls|
    ensures PassOf(op, ls, p)
    decreases TotalSize(ls), 0
  {
    if i == j then Pass(ls, 0)
    else
      TotalSizeUpdate(ls, i, ls[i]);
      var (a, n) := if ls[i].Bin? then DupsPass(ls[i]) else (ls[i], 0);
      TotalSizeUpdate(ls, i, a);
      match Join(op, a, ls[j])
      case None => Pass(ls[i := a], n)
      case Some(t) =>
        TotalSizeUpdate(ls, i, Symbol(Unit(op)));
        TotalSizeUpdate(ls[i := Symbol(Unit(op))], j, t);
        Pass(ls[i := Symbol(Unit(op))][j := t], n + 1)
  }

  /** Operand i against operands j..d in turn. */
  function JoinRow(op: Op, ls: seq<Expr>, i: nat, j: nat, d: nat): (p: Pass)
    requires AreLeaves(op, ls) && i < |ls| && j <= d <= |ls|
    ensures PassOf(op, ls, p)
    decreases TotalSize(ls), 1, d - j
  {
    if j == d then Pass(ls, 0)
    else
      var p := JoinAt(op, ls, i, j);
      var q := JoinRow(op, p.ls, i, j + 1, d);
      Pass(q.ls, p.count + q.count)
  }

  /** Operands i..b, each against operands c..d. */
  function JoinRows(op: Op, ls: seq<Expr>, i: nat, b: nat, c: nat, d: nat): (p: Pass)
    requires AreLeaves(op, ls) && i <= b <= |ls| && c <= d <= |ls|
    ensures PassOf(op, ls, p)
    decreases TotalSize(ls), 2, b - i
  {
    if i == b then Pass(ls, 0)
    else
      var p := JoinRow(op, ls, i, c, d);
      var q := JoinRows(op, p.ls, i + 1, b, c, d);
      Pass(q.ls, p.count + q.count)
  }

  /** expr_eliminate_dups1(e->type, &e, &e): every operand of e against every other one. */
  function DupsPass(e: Expr): (r: (Expr, nat))
    requires e.Bin?
    ensures IsOp(e.op, r.0) && Size(r.0) <= Size(e)
    decreases Size(e), 0
  {
    var ls := Leaves(e.op, e);
    LeavesSize(e.op, e);
    var p := JoinRows(e.op, ls, 0, |ls|, 0, |ls|);
    RebuildLeaves(e.op, e, p.ls);
    var r := Rebuild(e.op, e, p.ls);
    LeavesSize(e.op, r);
    (r, p.count)
  }

  // ---------- a pass keeps the value ----------

  function FoldEval(op: Op, ls: seq<Expr>, env: Env): Tri {
    if ls == [] then TriOf(env, Unit(op)) else ApplyOp(op, Eval(ls[0], env), FoldEval(op, ls[1..], env))
  }

  lemma {:induction false} FoldConcat(op: Op, a: seq<Expr>, b: seq<Expr>, env: Env)
    ensures FoldEval(op, a + b, env) == ApplyOp(op, FoldEval(op, a, env), FoldEval(op, b, env))
  {
    if a == [] {
      assert a + b == b;
    } else {
      FoldConcat(op, a[1..], b, env);
      assert (a + b)[1..] == a[1..] + b;
    }
  }

  lemma {:induction false} EvalLeaves(op: Op, e: Expr, env: Env)
    ensures Eval(e, env) == FoldEval(op, Leaves(op, e), env)
  {
    if IsOp(op, e) {
      EvalLeaves(op, e.left, env);
      EvalLeaves(op, e.right, env);
      FoldConcat(op, Leaves(op, e.left), Leaves(op, e.right), env);
    } else {
      assert FoldEval(op, [e], env) == ApplyOp(op, Eval(e, env), FoldEval(op, [e][1..], env));
    }
  }

  /** One operand can be pulled out in front of the others. */
  lemma {:induction false} FoldPull(op: Op, ls: seq<Expr>, i: nat, x: Expr, env: Env)
    requires i < |ls|
    ensures FoldEval(op, ls[i := x], env) == ApplyOp(op, Eval(x, env), FoldEval(op, ls[i := Symbol(Unit(op))], env))
  {
    var u := Symbol(Unit(op));
    if i == 0 {
      assert ls[i := x][1..] == ls[1..] == ls[i := u][1..];
    } else {
      FoldPull(op, ls[1..], i - 1, x, env);
      assert ls[i := x][1..] == ls[1..][i - 1 := x];
      assert ls[i := u][1..] == ls[1..][i - 1 := u];
    }
  }

  lemma FoldReplace(op: Op, ls: seq<Expr>, i: nat, x: Expr, env: Env)
    requires i < |ls| && Eval(x, env) == Eval(ls[i], env)
    ensures FoldEval(op, ls[i := x], env) == FoldEval(op, ls, env)
  {
    FoldPull(op, ls, i, x, env);
    FoldPull(op, ls, i, ls[i], env);
    assert ls[i := ls[i]] == ls;
  }

  lemma FoldJoin(op: Op, ls: seq<Expr>, i: nat, j: nat, t: Expr, env: Env)
    requires i < |ls| && j < |ls| && i != j
    requires Eval(t, env) == ApplyOp(op, Eval(ls[i], env), Eval(ls[j], env))
    ensures FoldEval(op, ls[i := Symbol(Unit(op))][j := t], env) == FoldEval(op, ls, env)
  {
    var a := ls[i := Symbol(Unit(op))];
    var rest := FoldEval(op, a[j := Symbol(Unit(op))], env);
    FoldPull(op, ls, i, ls[i], env);
    assert ls[i := ls[i]] == ls;
    FoldPull(op, a, j, ls[j], env);
    assert a[j := ls[j]] == a;
    FoldPull(op, a, j, t, env);
    ApplyOpAssociates(op, Eval(ls[i], env), Eval(ls[j], env), rest);
  }

  lemma ApplyOpAssociates(op: Op, x: Tri, y: Tri, z: Tri)
    ensures ApplyOp(op, x, ApplyOp(op, y, z)) == ApplyOp(op, ApplyOp(op, x, y), z)
  {
  }

  predicate AllFit(nnf: bool, ls: seq<Expr>) {
    forall i :: 0 <= i < |ls| ==> Fits(nnf, ls[i])
  }

  /** A step, row, block or pass has kept the value and the form of the operands. */
  ghost predicate Kept(nnf: bool, op: Op, ls: seq<Expr>, p: Pass, env: Env) {
    AllFit(nnf, p.ls) && FoldEval(op, p.ls, env) == FoldEval(op, ls, env)
  }

  lemma {:induction false} JoinAtKeeps(nnf: bool, op: Op, ls: seq<Expr>, i: nat, j: nat, env: Env)
    requires AreLeaves(op, ls) && i < |ls| && j < |ls| && AllFit(nnf, ls) && Typed(env)
    ensures Kept(nnf, op, ls, JoinAt(op, ls, i, j), env)
    decreases TotalSize(ls), 0
  {
    if i != j {
      TotalSizeUpdate(ls, i, ls[i]);
      var a := if ls[i].Bin? then DupsPass(ls[i]).0 else ls[i];
      if ls[i].Bin? {
        DupsPassKeeps(nnf, ls[i], env);
      }
      FoldReplace(op, ls, i, a, env);
      if Join(op, a, ls[j]).Some? {
        JoinKeeps(nnf, op, ls, i, j, a, env);
      }
    }
  }

  lemma JoinKeeps(nnf: bool, op: Op, ls: seq<Expr>, i: nat, j: nat, a: Expr, env: Env)
    requires i < |ls| && j < |ls| && i != j && AllFit(nnf, ls) && Fits(nnf, a) && Typed(env)
    requires FoldEval(op, ls[i := a], env) == FoldEval(op, ls, env) && Join(op, a, ls[j]).Some?
    ensures var ls' := ls[i := Symbol(Unit(op))][j := Join(op, a, ls[j]).value];
      AllFit(nnf, ls') && FoldEval(op, ls', env) == FoldEval(op, ls, env)
  {
    var t := Join(op, a, ls[j]).value;
    JoinFits(nnf, op, a, ls[j]);
    JoinFitsSound(nnf, op, a, ls[j], env);
    FoldJoin(op, ls[i := a], i, j, t, env);
    assert ls[i := a][i := Symbol(Unit(op))][j := t] == ls[i := Symbol(Unit(op))][j := t];
  }

  lemma JoinFitsSound(nnf: bool, op: Op, e1: Expr, e2: Expr, env: Env)
    requires Typed(env) && Fits(nnf, e1) && Fits(nnf, e2) && Join(op, e1, e2).Some?
    ensures Eval(Join(op, e1, e2).value, env) == ApplyOp(op, Eval(e1, env), Eval(e2, env))
  {
    if ExprEq(e1, e2) {
      ExprEqSound(e1, e2, env);
    } else {
      var s := CommonSubject(e1, e2).value;
      if op.Or? {
        ContractOrSound(s, e1, e2, env);
      } else if s.typ.Tristate? {
        FitsNoClash(nnf, e1, e2);
        FitsConstants(nnf, e1, e2);
        if ConstantTests(e1, e2) {
          ConstantTestsSound(s, e1, e2, env);
        } else if ConstantTests(e2, e1) {
          ConstantTestsSound(s, e2, e1, env);
        } else {
          OtherTestsSound(s, e1, e2, env);
        }
      } else {
        OtherTestsSound(s, e1, e2, env);
      }
    }
  }

  lemma {:induction false} JoinRowKeeps(nnf: bool, op: Op, ls: seq<Expr>, i: nat, j: nat, d: nat, env: Env)
    requires AreLeaves(op, ls) && i < |ls| && j <= d <= |ls| && AllFit(nnf, ls) && Typed(env)
    ensures Kept(nnf, op, ls, JoinRow(op, ls, i, j, d), env)
    decreases TotalSize(ls), 1, d - j
  {
    if j < d {
      JoinAtKeeps(nnf, op, ls, i, j, env);
      JoinRowKeeps(nnf, op, JoinAt(op, ls, i, j).ls, i, j + 1, d, env);
    }
  }

  lemma {:induction false} JoinRowsKeep(nnf: bool, op: Op, ls: seq<Expr>, i: nat, b: nat, c: nat, d: nat, env: Env)
    requires AreLeaves(op, ls) && i <= b <= |ls| && c <= d <= |ls| && AllFit(nnf, ls) && Typed(env)
    ensures Kept(nnf, op, ls, JoinRows(op, ls, i, b, c, d), env)
    decreases TotalSize(ls), 2, b - i
  {
    if i < b {
      var p := JoinRow(op, ls, i, c, d);
      JoinRowKeeps(nnf, op, ls, i, c, d, env);
      JoinRowsKeep(nnf, op, p.ls, i + 1, b, c, d, env);
      KeptTwice(nnf, op, ls, p, JoinRows(op, p.ls, i + 1, b, c, d), JoinRows(op, ls, i, b, c, d), env);
    }
  }

  lemma KeptTwice(nnf: bool, op: Op, ls: seq<Expr>, p: Pass, q: Pass, r: Pass, env: Env)
    requires Kept(nnf, op, ls, p, env) && Kept(nnf, op, p.ls, q, env) && r.ls == q.ls
    ensures Kept(nnf, op, ls, r, env)
  {
  }

  /** A whole pass keeps the value of the expression. */
  lemma {:induction false} DupsPassKeeps(nnf: bool, e: Expr, env: Env)
    requires e.Bin? && Fits(nnf, e) && Typed(env)
    ensures Fits(nnf, DupsPass(e).0) && Eval(DupsPass(e).0, env) == Eval(e, env)
    decreases Size(e), 0
  {
    var ls := Leaves(e.op, e);
    LeavesSize(e.op, e);
    LeavesFit(nnf, e.op, e);
    EvalLeaves(e.op, e, env);
    JoinRowsKeep(nnf, e.op, ls, 0, |ls|, 0, |ls|, env);
    var p := JoinRows(e.op, ls, 0, |ls|, 0, |ls|);
    RebuildLeaves(e.op, e, p.ls);
    LeavesFit(nnf, e.op, DupsPass(e).0);
    EvalLeaves(e.op, DupsPass(e).0, env);
  }

  lemma {:induction false} LeavesFit(nnf: bool, op: Op, e: Expr)
    ensures Fits(nnf, e) <==> AllFit(nnf, Leaves(op, e))
  {
    if IsOp(op, e) {
      LeavesFit(nnf, op, e.left);
      LeavesFit(nnf, op, e.right);
      AllFitConcat(nnf, Leaves(op, e.left), Leaves(op, e.right));
    } else {
      assert Leaves(op, e)[0] == e;
    }
  }

  lemma AllFitConcat(nnf: bool, a: seq<Expr>, b: seq<Expr>)
    ensures AllFit(nnf, a + b) <==> AllFit(nnf, a) && AllFit(nnf, b)
  {
    assert forall i :: 0 <= i < |a| ==> a[i] == (a + b)[i];
    assert forall i :: 0 <= i < |b| ==> b[i] == (a + b)[|a| + i];
  }

  // ---------- every pass that counts a simplification makes progress ----------

  /** There is an operand to drop, at this level or inside an operand. */
  predicate Reducible(ls: seq<Expr>) {
    exists i :: 0 <= i < |ls| && (IsConstant(ls[i]) || !NoConstantOperands(ls[i]))
  }

  lemma {:induction false} ReducibleLeaves(op: Op, e: Expr)
    ensures Reducible(Leaves(op, e)) <==> (IsOp(op, e) && !NoConstantOperands(e)) || (!IsOp(op, e) && (IsConstant(e) || !NoConstantOperands(e)))
  {
    if IsOp(op, e) {
      ReducibleLeaves(op, e.left);
      ReducibleLeaves(op, e.right);
      ReducibleConcat(Leaves(op, e.left), Leaves(op, e.right));
    } else {
      assert Leaves(op, e)[0] == e;
    }
  }

  lemma ReducibleConcat(a: seq<Expr>, b: seq<Expr>)
    ensures Reducible(a + b) <==> Reducible(a) || Reducible(b)
  {
    assert forall i :: 0 <= i < |a| ==> a[i] == (a + b)[i];
    assert forall i :: 0 <= i < |b| ==> b[i] == (a + b)[|a| + i];
  }

  lemma {:induction false} JoinAtProgress(op: Op, ls: seq<Expr>, i: nat, j: nat)
    requires AreLeaves(op, ls) && i < |ls| && j < |ls|
    ensures Reducible(ls) || JoinAt(op, ls, i, j).count > 0 ==> Reducible(JoinAt(op, ls, i, j).ls)
    decreases TotalSize(ls), 0
  {
    if i != j {
      TotalSizeUpdate(ls, i, ls[i]);
      if ls[i].Bin? {
        DupsPassProgress(ls[i]);
      }
      var p := JoinAt(op, ls, i, j);
      var a := if ls[i].Bin? then DupsPass(ls[i]).0 else ls[i];
      if Join(op, a, ls[j]).Some? {
        assert p.ls[i] == Symbol(Unit(op));
      } else {
        assert p.ls == ls[i := a];
        if Reducible(ls) {
          var k :| 0 <= k < |ls| && (IsConstant(ls[k]) || !NoConstantOperands(ls[k]));
          assert IsConstant(p.ls[k]) || !NoConstantOperands(p.ls[k]);
        } else if p.count > 0 {
          assert !NoConstantOperands(p.ls[i]);
        }
      }
    }
  }

  lemma {:induction false} JoinRowProgress(op: Op, ls: seq<Expr>, i: nat, j: nat, d: nat)
    requires AreLeaves(op, ls) && i < |ls| && j <= d <= |ls|
    ensures Reducible(ls) || JoinRow(op, ls, i, j, d).count > 0 ==> Reducible(JoinRow(op, ls, i, j, d).ls)
    decreases TotalSize(ls), 1, d - j
  {
    if j < d {
      JoinAtProgress(op, ls, i, j);
      JoinRowProgress(op, JoinAt(op, ls, i, j).ls, i, j + 1, d);
    }
  }

  lemma {:induction false} JoinRowsProgress(op: Op, ls: seq<Expr>, i: nat, b: nat, c: nat, d: nat)
    requires AreLeaves(op, ls) && i <= b <= |ls| && c <= d <= |ls|
    ensures Reducible(ls) || JoinRows(op, ls, i, b, c, d).count > 0 ==> Reducible(JoinRows(op, ls, i, b, c, d).ls)
    decreases TotalSize(ls), 2, b - i
  {
    if i < b {
      JoinRowProgress(op, ls, i, c, d);
      JoinRowsProgress(op, JoinRow(op, ls, i, c, d).ls, i + 1, b, c, d);
    }
  }

  /** A pass that has counted something leaves an operand that expr_eliminate_yn will drop. */
  lemma {:induction false} DupsPassProgress(e: Expr)
    requires e.Bin?
    ensures !NoConstantOperands(e) || DupsPass(e).1 > 0 ==> !NoConstantOperands(DupsPass(e).0)
    decreases Size(e), 0
  {
    var ls := Leaves(e.op, e);
    LeavesSize(e.op, e);
    ReducibleLeaves(e.op, e);
    JoinRowsProgress(e.op, ls, 0, |ls|, 0, |ls|);
    RebuildLeaves(e.op, e, JoinRows(e.op, ls, 0, |ls|, 0, |ls|).ls);
    ReducibleLeaves(e.op, DupsPass(e).0);
  }

  // ---------- the fixpoint loop ----------

  /** One round of the loop in expr_eliminate_dups: a pass if the expression is a compound, else nothing. */
  function DupsRound(e: Expr): (Expr, nat) {
    if e.Bin? then DupsPass(e) else (e, 0)
  }

  /** A round that counts a simplification leaves a strictly smaller tree once y and n are eliminated. */
  lemma DupsRoundShrinks(e: Expr)
    requires DupsRound(e).1 > 0
    ensures Size(EliminateYn(DupsRound(e).0)) < Size(e)
  {
    DupsPassProgress(e);
    EliminateYnComplete(DupsPass(e).0);
  }

  /** expr_eliminate_dups on an expression that is not NULL. */
  function EliminateDups(e: Expr): Expr
    decreases Size(e)
  {
    var (r, count) := DupsRound(e);
    if count == 0 then r
    else
      DupsRoundShrinks(e);
      EliminateDups(EliminateYn(r))
  }

  lemma {:induction false} EliminateYnFits(nnf: bool, e: Expr)
    requires Fits(nnf, e)
    ensures Fits(nnf, EliminateYn(e))
  {
    if e.Bin? {
      EliminateYnFits(nnf, e.left);
      EliminateYnFits(nnf, e.right);
    }
  }

  /** expr_eliminate_dups keeps the value of every expression with plain tests in every typed environment. */
  lemma {:induction false} EliminateDupsSound(nnf: bool, e: Expr, env: Env)
    requires Fits(nnf, e) && Typed(env)
    ensures Eval(EliminateDups(e), env) == Eval(e, env)
    ensures Fits(nnf, EliminateDups(e))
    decreases Size(e)
  {
    var (r, count) := DupsRound(e);
    if e.Bin? {
      DupsPassKeeps(nnf, e, env);
    }
    if count > 0 {
      DupsRoundShrinks(e);
      EliminateYnSound(r, env);
      EliminateYnFits(nnf, r);
      EliminateDupsSound(nnf, EliminateYn(r), env);
    }
  }

  // ---------- what holds of all operands ----------

  /** A property of everything that is no && or ||, in an expression of these. */
  predicate Has(ok: Expr -> bool, e: Expr) {
    if e.Bin? then Has(ok, e.left) && Has(ok, e.right) else ok(e)
  }

  predicate AllHave(ok: Expr -> bool, ls: seq<Expr>) {
    forall i :: 0 <= i < |ls| ==> Has(ok, ls[i])
  }

  /** The joins keep the property, and y and n have it. */
  ghost predicate Closed(ok: Expr -> bool) {
    && ok(Symbol(SYM_YES)) && ok(Symbol(SYM_NO))
    && forall op, e1, e2 {:trigger Join(op, e1, e2)} ::
        Has(ok, e1) && Has(ok, e2) && Join(op, e1, e2).Some? ==> Has(ok, Join(op, e1, e2).value)
  }

  lemma {:induction false} LeavesHave(ok: Expr -> bool, op: Op, e: Expr)
    ensures Has(ok, e) <==> AllHave(ok, Leaves(op, e))
  {
    if IsOp(op, e) {
      LeavesHave(ok, op, e.left);
      LeavesHave(ok, op, e.right);
      AllHaveConcat(ok, Leaves(op, e.left), Leaves(op, e.right));
    } else {
      assert Leaves(op, e)[0] == e;
    }
  }

  lemma AllHaveConcat(ok: Expr -> bool, a: seq<Expr>, b: seq<Expr>)
    ensures AllHave(ok, a + b) <==> AllHave(ok, a) && AllHave(ok, b)
  {
    assert forall i :: 0 <= i < |a| ==> a[i] == (a + b)[i];
    assert forall i :: 0 <= i < |b| ==> b[i] == (a + b)[|a| + i];
  }

  lemma JoinHas(ok: Expr -> bool, op: Op, e1: Expr, e2: Expr)
    requires Closed(ok) && Has(ok, e1) && Has(ok, e2) && Join(op, e1, e2).Some?
    ensures Has(ok, Join(op, e1, e2).value)
  {
  }

  lemma UnitHas(ok: Expr -> bool, op: Op)
    requires Closed(ok)
    ensures Has(ok, Symbol(Unit(op)))
  {
  }

  lemma {:induction false} JoinAtHas(ok: Expr -> bool, op: Op, ls: seq<Expr>, i: nat, j: nat)
    requires AreLeaves(op, ls) && i < |ls| && j < |ls| && AllHave(ok, ls) && Closed(ok)
    ensures AllHave(ok, JoinAt(op, ls, i, j).ls)
    decreases TotalSize(ls), 0
  {
    if i != j {
      TotalSizeUpdate(ls, i, ls[i]);
      if ls[i].Bin? {
        DupsPassHas(ok, ls[i]);
      }
      var a := if ls[i].Bin? then DupsPass(ls[i]).0 else ls[i];
      UnitHas(ok, op);
      if Join(op, a, ls[j]).Some? {
        JoinHas(ok, op, a, ls[j]);
      }
    }
  }

  lemma {:induction false} JoinRowHas(ok: Expr -> bool, op: Op, ls: seq<Expr>, i: nat, j: nat, d: nat)
    requires AreLeaves(op, ls) && i < |ls| && j <= d <= |ls| && AllHave(ok, ls) && Closed(ok)
    ensures AllHave(ok, JoinRow(op, ls, i, j, d).ls)
    decreases TotalSize(ls), 1, d - j
  {
    if j < d {
      JoinAtHas(ok, op, ls, i, j);
      JoinRowHas(ok, op, JoinAt(op, ls, i, j).ls, i, j + 1, d);
    }
  }

  lemma {:induction false} JoinRowsHave(ok: Expr -> bool, op: Op, ls: seq<Expr>, i: nat, b: nat, c: nat, d: nat)
    requires AreLeaves(op, ls) && i <= b <= |ls| && c <= d <= |ls| && AllHave(ok, ls) && Closed(ok)
    ensures AllHave(ok, JoinRows(op, ls, i, b, c, d).ls)
    decreases TotalSize(ls), 2, b - i
  {
    if i < b {
      JoinRowHas(ok, op, ls, i, c, d);
      JoinRowsHave(ok, op, JoinRow(op, ls, i, c, d).ls, i + 1, b, c, d);
    }
  }

  lemma {:induction false} DupsPassHas(ok: Expr -> bool, e: Expr)
    requires e.Bin? && Has(ok, e) && Closed(ok)
    ensures Has(ok, DupsPass(e).0)
    decreases Size(e), 0
  {
    var ls := Leaves(e.op, e);
    LeavesSize(e.op, e);
    LeavesHave(ok, e.op, e);
    JoinRowsHave(ok, e.op, ls, 0, |ls|, 0, |ls|);
    RebuildLeaves(e.op, e, JoinRows(e.op, ls, 0, |ls|, 0, |ls|).ls);
    LeavesHave(ok, e.op, DupsPass(e).0);
  }

  lemma {:induction false} EliminateYnHas(ok: Expr -> bool, e: Expr)
    requires Has(ok, e)
    ensures Has(ok, EliminateYn(e))
  {
    if e.Bin? {
      EliminateYnHas(ok, e.left);
      EliminateYnHas(ok, e.right);
    }
  }

  /** A property that the joins keep survives expr_eliminate_dups. */
  lemma {:induction false} EliminateDupsHas(ok: Expr -> bool, e: Expr)
    requires Has(ok, e) && Closed(ok)
    ensures Has(ok, EliminateDups(e))
    decreases Size(e)
  {
    var (r, count) := DupsRound(e);
    if e.Bin? {
      DupsPassHas(ok, e);
    }
    if count > 0 {
      DupsRoundShrinks(e);
      EliminateYnHas(ok, r);
      EliminateDupsHas(ok, EliminateYn(r));
    }
  }

  // ---------- what the loop achieves ----------

  /** No two operands at any level can be joined, in either order. */
  predicate Irreducible(e: Expr)
    decreases Size(e)
  {
    e.Bin? ==>
      var ls := Leaves(e.op, e);
      LeavesSize(e.op, e);
      && (forall i, j :: 0 <= i < |ls| && 0 <= j < |ls| && i != j ==> Join(e.op, ls[i], ls[j]).None?)
      && (forall i :: 0 <= i < |ls| ==> (TotalSizeUpdate(ls, i, ls[i]); Irreducible(ls[i])))
  }

  lemma {:induction false} RebuildSame(op: Op, e: Expr)
    ensures Rebuild(op, e, Leaves(op, e)) == e
  {
    if IsOp(op, e) {
      RebuildSame(op, e.left);
      RebuildSame(op, e.right);
      assert Leaves(op, e)[..|Leaves(op, e.left)|] == Leaves(op, e.left);
      assert Leaves(op, e)[|Leaves(op, e.left)|..] == Leaves(op, e.right);
    }
  }

  lemma {:induction false} JoinAtIdle(op: Op, ls: seq<Expr>, i: nat, j: nat)
    requires AreLeaves(op, ls) && i < |ls| && j < |ls| && i != j
    ensures JoinAt(op, ls, i, j).count == 0 <==> Join(op, ls[i], ls[j]).None? && Irreducible(ls[i])
    ensures JoinAt(op, ls, i, j).count == 0 ==> JoinAt(op, ls, i, j).ls == ls
    decreases TotalSize(ls), 0
  {
    TotalSizeUpdate(ls, i, ls[i]);
    if ls[i].Bin? {
      DupsPassIdle(ls[i]);
    }
  }

  /** Some operand other than i lies in j..d. */
  predicate HasOther(i: nat, j: nat, d: nat) {
    j + 2 <= d || (j + 1 == d && i != j)
  }

  lemma {:induction false} JoinRowIdle(op: Op, ls: seq<Expr>, i: nat, j: nat, d: nat)
    requires AreLeaves(op, ls) && i < |ls| && j <= d <= |ls|
    ensures JoinRow(op, ls, i, j, d).count == 0 <==>
            && (forall k :: j <= k < d && k != i ==> Join(op, ls[i], ls[k]).None?)
            && (HasOther(i, j, d) ==> Irreducible(ls[i]))
    ensures JoinRow(op, ls, i, j, d).count == 0 ==> JoinRow(op, ls, i, j, d).ls == ls
    decreases TotalSize(ls), 1, d - j
  {
    if j < d {
      if i != j {
        JoinAtIdle(op, ls, i, j);
      }
      if JoinAt(op, ls, i, j).count == 0 {
        JoinRowIdle(op, ls, i, j + 1, d);
      }
    }
  }

  /** Operand k is irreducible and joins with no other operand. */
  predicate RowClear(op: Op, ls: seq<Expr>, k: nat)
    requires k < |ls|
  {
    Irreducible(ls[k]) && forall j :: 0 <= j < |ls| && j != k ==> Join(op, ls[k], ls[j]).None?
  }

  lemma {:induction false} JoinRowsIdle(op: Op, ls: seq<Expr>, i: nat)
    requires AreLeaves(op, ls) && i <= |ls| && |ls| >= 2
    ensures JoinRows(op, ls, i, |ls|, 0, |ls|).count == 0 <==> forall k :: i <= k < |ls| ==> RowClear(op, ls, k)
    ensures JoinRows(op, ls, i, |ls|, 0, |ls|).count == 0 ==> JoinRows(op, ls, i, |ls|, 0, |ls|).ls == ls
    decreases TotalSize(ls), 2, |ls| - i
  {
    if i < |ls| {
      JoinRowIdle(op, ls, i, 0, |ls|);
      assert JoinRow(op, ls, i, 0, |ls|).count == 0 <==> RowClear(op, ls, i);
      if JoinRow(op, ls, i, 0, |ls|).count == 0 {
        JoinRowsIdle(op, ls, i + 1);
      }
    }
  }

  lemma IrreducibleRows(e: Expr)
    requires e.Bin?
    ensures var ls := Leaves(e.op, e); Irreducible(e) <==> forall k :: 0 <= k < |ls| ==> RowClear(e.op, ls, k)
  {
    var ls := Leaves(e.op, e);
    LeavesSize(e.op, e);
    if Irreducible(e) {
      forall k | 0 <= k < |ls|
        ensures RowClear(e.op, ls, k)
      {
        assert Irreducible(ls[k]);
      }
    }
    if forall k :: 0 <= k < |ls| ==> RowClear(e.op, ls, k) {
      forall i, j | 0 <= i < |ls| && 0 <= j < |ls| && i != j
        ensures Join(e.op, ls[i], ls[j]).None?
      {
        assert RowClear(e.op, ls, i);
      }
      forall i | 0 <= i < |ls|
        ensures Irreducible(ls[i])
      {
        assert RowClear(e.op, ls, i);
      }
      assert Irreducible(e);
    }
  }

  /** A pass counts nothing exactly when nothing can be joined, and then it changes nothing. */
  lemma {:induction false} DupsPassIdle(e: Expr)
    requires e.Bin?
    ensures DupsPass(e).1 == 0 <==> Irreducible(e)
    ensures DupsPass(e).1 == 0 ==> DupsPass(e).0 == e
    decreases Size(e), 0
  {
    var ls := Leaves(e.op, e);
    LeavesSize(e.op, e);
    RebuildSame(e.op, e);
    TwoLeaves(e);
    JoinRowsIdle(e.op, ls, 0);
    IrreducibleRows(e);
  }

  lemma TwoLeaves(e: Expr)
    requires e.Bin?
    ensures |Leaves(e.op, e)| >= 2
  {
  }

  /** The loop ends with an expression in which nothing is left to join; a second call changes nothing. */
  lemma {:induction false} EliminateDupsComplete(e: Expr)
    ensures Irreducible(EliminateDups(e))
    ensures Irreducible(e) <==> EliminateDups(e) == e
    decreases Size(e)
  {
    var (r, count) := DupsRound(e);
    if e.Bin? {
      DupsPassIdle(e);
    }
    if count > 0 {
      DupsRoundShrinks(e);
      EliminateDupsComplete(EliminateYn(r));
    }
  }

  // ---------- the result, described without the joins ----------

  /** Both are tests of s for one of y, m and n, but not for the same one. */
  predicate OtherValues(rel: Relation, e1: Expr, e2: Expr) {
    && e1.Compare? && e2.Compare? && e1.rel == rel && e2.rel == rel
    && e1.rsym in {SYM_YES, SYM_MOD, SYM_NO} && e2.rsym in {SYM_YES, SYM_MOD, SYM_NO} && e1.rsym != e2.rsym
  }

  /** A bool or tristate by itself and a test of it for y, for not n or for not m. */
  predicate TestedItself(e1: Expr, e2: Expr) {
    && e1.Symbol? && e2.Compare? && e2.lsym == e1.sym && (e1.sym.typ.Boolean? || e1.sym.typ.Tristate?)
    && ((e2.rel.Equal? && e2.rsym == SYM_YES) || (e2.rel.Unequal? && e2.rsym in {SYM_NO, SYM_MOD}))
  }

  /** A test of a tristate for a constant, and one for not being a constant. */
  predicate TestedBothWays(e1: Expr, e2: Expr) {
    && e1.Compare? && e2.Compare? && e1.lsym == e2.lsym && e1.lsym.typ.Tristate?
    && e1.rel.Equal? && e2.rel.Unequal? && e1.rsym.isConst && e2.rsym.isConst
  }

  /** Two operands about the same symbol that say no more than one could. */
  predicate Mergeable(op: Op, e1: Expr, e2: Expr) {
    match op
    case Or =>
      || (OtherValues(Equal, e1, e2) && e1.lsym == e2.lsym && e1.lsym.typ.Tristate?)
      || (e1.Symbol? && e2 == Not(e1) && e1.sym.typ.Boolean?)
      || (e2.Symbol? && e1 == Not(e2) && e2.sym.typ.Boolean?)
    case And =>
      || TestedItself(e1, e2) || TestedItself(e2, e1) || TestedBothWays(e1, e2) || TestedBothWays(e2, e1)
      || (OtherValues(Unequal, e1, e2) && e1.lsym == e2.lsym && e1.lsym.typ.Tristate?)
  }

  lemma MergeableContracts(op: Op, e1: Expr, e2: Expr)
    ensures Mergeable(op, e1, e2) <==>
      var s := CommonSubject(e1, e2);
      s.Some? && (if op.Or? then ContractOr(s.value, e1, e2) else ContractAnd(s.value, e1, e2)).Some?
  {
  }

  /** No two operands at any level are equal, byKey up to the order of their own operands, or say no more than one. */
  predicate Settled(e: Expr, byKey: bool)
    decreases Size(e)
  {
    e.Bin? ==>
      var ls := Leaves(e.op, e);
      LeavesSize(e.op, e);
      && (forall i, j :: 0 <= i < |ls| && 0 <= j < |ls| && i != j ==> Apart(e.op, ls[i], ls[j], byKey))
      && (forall i :: 0 <= i < |ls| ==> (TotalSizeUpdate(ls, i, ls[i]); Settled(ls[i], byKey)))
  }

  predicate Apart(op: Op, e1: Expr, e2: Expr, byKey: bool) {
    (if byKey then KeyOf(e1) != KeyOf(e2) else e1 != e2) && !Mergeable(op, e1, e2)
  }

  lemma NotJoined(op: Op, e1: Expr, e2: Expr, byKey: bool)
    requires Join(op, e1, e2).None? && (byKey ==> Pure(e1) && Pure(e2))
    ensures Apart(op, e1, e2, byKey)
  {
    MergeableContracts(op, e1, e2);
    ExprEqReflexive(e1);
    if byKey {
      ExprEqDecides(e1, e2);
    }
  }

  lemma {:induction false} PureLeaves(op: Op, e: Expr)
    requires Pure(e)
    ensures forall i :: 0 <= i < |Leaves(op, e)| ==> Pure(Leaves(op, e)[i])
  {
    if IsOp(op, e) {
      PureLeaves(op, e.left);
      PureLeaves(op, e.right);
    }
  }

  lemma {:induction false} IrreducibleSettled(e: Expr, byKey: bool)
    requires Irreducible(e) && (byKey ==> Pure(e))
    ensures Settled(e, byKey)
    decreases Size(e)
  {
    if e.Bin? {
      var ls := Leaves(e.op, e);
      LeavesSize(e.op, e);
      if byKey {
        PureLeaves(e.op, e);
      }
      forall i | 0 <= i < |ls|
        ensures (TotalSizeUpdate(ls, i, ls[i]); Settled(ls[i], byKey))
      {
        TotalSizeUpdate(ls, i, ls[i]);
        IrreducibleSettled(ls[i], byKey);
      }
      forall i, j | 0 <= i < |ls| && 0 <= j < |ls| && i != j
        ensures Apart(e.op, ls[i], ls[j], byKey)
      {
        NotJoined(e.op, ls[i], ls[j], byKey);
      }
    }
  }

  lemma {:induction false} SettledIrreducible(e: Expr)
    requires Settled(e, true) && Pure(e)
    ensures Irreducible(e)
    decreases Size(e)
  {
    if e.Bin? {
      var ls := Leaves(e.op, e);
      LeavesSize(e.op, e);
      PureLeaves(e.op, e);
      forall i | 0 <= i < |ls|
        ensures (TotalSizeUpdate(ls, i, ls[i]); Irreducible(ls[i]))
      {
        TotalSizeUpdate(ls, i, ls[i]);
        SettledIrreducible(ls[i]);
      }
      forall i, j | 0 <= i < |ls| && 0 <= j < |ls| && i != j
        ensures Join(e.op, ls[i], ls[j]).None?
      {
        assert Apart(e.op, ls[i], ls[j], true);
        MergeableContracts(e.op, ls[i], ls[j]);
        ExprEqDecides(ls[i], ls[j]);
      }
    }
  }

  /** expr_eliminate_dups leaves no duplicates and nothing to merge, at any level; without y and n among the operands
      not even duplicates in another order. */
  lemma EliminateDupsSettles(e: Expr)
    ensures Settled(EliminateDups(e), false)
    ensures Pure(EliminateDups(e)) ==> Settled(EliminateDups(e), true)
  {
    EliminateDupsComplete(e);
    IrreducibleSettled(EliminateDups(e), false);
    if Pure(EliminateDups(e)) {
      IrreducibleSettled(EliminateDups(e), true);
    }
  }

  /** And it leaves alone exactly what has none. */
  lemma SettledUnchanged(e: Expr)
    requires Pure(e)
    ensures EliminateDups(e) == e <==> Settled(e, true)
  {
    EliminateDupsComplete(e);
    if Settled(e, true) {
      SettledIrreducible(e);
    } else if Irreducible(e) {
      IrreducibleSettled(e, true);
    }
  }
}
