/** Pushing negations inwards, comparison insertion, and the dependency pipeline built from the rewrites. */
module Transformation {
  import opened Wrappers
  import opened Exprs
  import opened Elimination
  import opened Duplicates

  // ---------- expr_transform ----------

  /** The termination measure of expr_transform. De Morgan's laws add a node, but they lower this weight. */
  function Weight(e: Expr): (n: nat)
    ensures n >= 1
  {
    match e
    case Symbol(_) => 1
    case Compare(_, _, _) => 2
    case Not(a) => 2 * Weight(a)
    case Bin(_, l, r) => 1 + Weight(l) + Weight(r)
  }

  function Dual(op: Op): Op { if op.And? then Or else And }

  function Complement(rel: Relation): Relation {
    match rel
    case Equal => Unequal
    case Unequal => Equal
    case Lth => Geq
    case Leq => Gth
    case Gth => Leq
    case Geq => Lth
  }

  /** A comparison of a bool with y, m or n becomes a plain or negated symbol or a constant. */
  function TransformTest(e: Expr): (r: Expr)
    requires e.Compare?
    ensures Weight(r) <= 2
  {
    if !EqualityTest(e) || !e.lsym.typ.Boolean? then e
    else if e.rsym == SYM_NO then (if e.rel.Equal? then Not(Symbol(e.lsym)) else Symbol(e.lsym))
    else if e.rsym == SYM_MOD then (if e.rel.Equal? then Symbol(SYM_NO) else Symbol(SYM_YES))
    else if e.rsym == SYM_YES then (if e.rel.Equal? then Symbol(e.lsym) else Not(Symbol(e.lsym)))
    else e
  }

  lemma DeMorganLighter(op: Op, l: Expr, r: Expr)
    ensures Weight(Bin(Dual(op), Not(l), Not(r))) < Weight(Not(Bin(op, l, r)))
  {
    assert Weight(Not(l)) == 2 * Weight(l) && Weight(Not(r)) == 2 * Weight(r);
    assert Weight(Not(Bin(op, l, r))) == 2 * Weight(Bin(op, l, r));
  }

  /** expr_transform on an expression that is not NULL. */
  function Transform(e: Expr): (r: Expr)
    ensures Weight(r) <= Weight(e)
    decreases Weight(e)
  {
    match e
    case Symbol(_) => e
    case Compare(_, _, _) => TransformTest(e)
    case Bin(op, l, r) => Bin(op, Transform(l), Transform(r))
    case Not(a0) =>
      var a := Transform(a0);
      match a
      case Not(b) => Transform(b)
      case Compare(rel, l, r) => Compare(Complement(rel), l, r)
      case Bin(op, l, r) =>
        DeMorganLighter(op, l, r);
        Transform(Bin(Dual(op), Not(l), Not(r)))
      case Symbol(s) =>
        if s == SYM_YES then Symbol(SYM_NO)
        else if s == SYM_MOD then Symbol(SYM_MOD)
        else if s == SYM_NO then Symbol(SYM_YES)
        else Not(a)
  }

  /** Negation normal form, without tests of a bool against y, m or n: ! stands on symbols other than y, m, n. */
  predicate Normal(e: Expr) {
    match e
    case Symbol(_) => true
    case Compare(_, l, r) => !(EqualityTest(e) && l.typ.Boolean? && r in {SYM_YES, SYM_MOD, SYM_NO})
    case Not(a) => a.Symbol? && a.sym !in {SYM_YES, SYM_MOD, SYM_NO}
    case Bin(_, l, r) => Normal(l) && Normal(r)
  }

  lemma TransformTestSound(e: Expr, env: Env)
    requires e.Compare? && Typed(env)
    ensures Eval(TransformTest(e), env) == Eval(e, env)
  {
    if TransformTest(e) != e {
      LocalEvalCorrect(e.lsym, e, env);
    }
  }

  /** expr_transform keeps the value in every typed environment. */
  lemma {:induction false} TransformSound(e: Expr, env: Env)
    requires Typed(env)
    ensures Eval(Transform(e), env) == Eval(e, env)
    decreases Weight(e)
  {
    match e
    case Symbol(_) =>
    case Compare(_, _, _) => TransformTestSound(e, env);
    case Bin(op, l, r) =>
      TransformSound(l, env);
      TransformSound(r, env);
    case Not(a0) =>
      TransformSound(a0, env);
      var a := Transform(a0);
      if a.Not? {
        TransformSound(a.arg, env);
      } else if a.Bin? {
        DeMorganLighter(a.op, a.left, a.right);
        TransformSound(Bin(Dual(a.op), Not(a.left), Not(a.right)), env);
      }
  }

  /** The result is in normal form, whatever the input. */
  lemma {:induction false} TransformNormal(e: Expr)
    ensures Normal(Transform(e))
    decreases Weight(e)
  {
    match e
    case Symbol(_) =>
    case Compare(_, _, _) =>
    case Bin(op, l, r) =>
      TransformNormal(l);
      TransformNormal(r);
    case Not(a0) =>
      TransformNormal(a0);
      var a := Transform(a0);
      if a.Not? {
        TransformNormal(a.arg);
      } else if a.Bin? {
        DeMorganLighter(a.op, a.left, a.right);
        TransformNormal(Bin(Dual(a.op), Not(a.left), Not(a.right)));
      }
  }

  /** Exactly the normal forms are left alone; in particular expr_transform is idempotent. */
  lemma {:induction false} TransformFixpoints(e: Expr)
    ensures Normal(e) <==> Transform(e) == e
    ensures Transform(Transform(e)) == Transform(e)
  {
    if Normal(e) {
      NormalStays(e);
    } else {
      TransformNormal(e);
    }
    TransformNormal(e);
    NormalStays(Transform(e));
  }

  lemma {:induction false} NormalStays(e: Expr)
    requires Normal(e)
    ensures Transform(e) == e
  {
    if e.Bin? {
      NormalStays(e.left);
      NormalStays(e.right);
    }
  }

  lemma {:induction false} TransformFits(e: Expr)
    requires Fits(false, e)
    ensures Fits(true, Transform(e))
    decreases Weight(e)
  {
    match e
    case Symbol(_) =>
    case Compare(_, _, _) =>
    case Bin(op, l, r) =>
      TransformFits(l);
      TransformFits(r);
    case Not(a0) =>
      TransformFits(a0);
      FitsWeaker(Transform(a0));
      var a := Transform(a0);
      if a.Not? {
        TransformFits(a.arg);
      } else if a.Bin? {
        DeMorganLighter(a.op, a.left, a.right);
        TransformFits(Bin(Dual(a.op), Not(a.left), Not(a.right)));
      }
  }

  lemma {:induction false} FitsWeaker(e: Expr)
    requires Fits(true, e)
    ensures Fits(false, e)
  {
    if e.Bin? {
      FitsWeaker(e.left);
      FitsWeaker(e.right);
    }
  }

  // ---------- expr_trans_bool ----------

  /** expr_trans_bool: FOO!=n becomes FOO for a tristate FOO. */
  function TransBool(e: Expr): Expr {
    match e
    case Symbol(_) => e
    case Compare(rel, l, r) => if rel.Unequal? && l.typ.Tristate? && r == SYM_NO then Symbol(l) else e
    case Not(a) => Not(TransBool(a))
    case Bin(op, l, r) => Bin(op, TransBool(l), TransBool(r))
  }

  /** Whether expr_trans_bool keeps "is n" (asNo) or "is y" (otherwise) of an expression that now has that value:
      a test that is rewritten must not be y for a symbol that is m, where a change from y to m matters. */
  predicate TransBoolKeeps(e: Expr, env: Env, asNo: bool) {
    match e
    case Symbol(_) => true
    case Compare(_, l, _) => asNo || TransBool(e) == e || TriOf(env, l) != MOD
    case Not(a) => TransBoolKeeps(a, env, !asNo)
    case Bin(op, l, r) =>
      var v := if asNo then NO else YES;
      var (left, right) := (TransBoolKeeps(l, env, asNo), TransBoolKeeps(r, env, asNo));
      Eval(e, env) != v ||
      if op.And? == asNo then (Eval(l, env) == v && left) || (Eval(r, env) == v && right) else left && right
  }

  lemma TestOfMod(e: Expr, env: Env)
    requires Typed(env) && e.Compare? && TransBool(e) != e
    ensures Eval(e, env) == FromBool(TriOf(env, e.lsym) != NO) && Eval(TransBool(e), env) == TriOf(env, e.lsym)
  {
    EqualToTriConstant(env, e.lsym);
  }

  /** Values only ever move to m, and exactly where the condition says so. */
  lemma {:induction false} TransBoolMoves(e: Expr, env: Env)
    requires Typed(env)
    ensures Eval(TransBool(e), env) == Eval(e, env) || Eval(TransBool(e), env) == MOD
    ensures Eval(e, env) == NO ==> (Eval(TransBool(e), env) == NO <==> TransBoolKeeps(e, env, true))
    ensures Eval(e, env) == YES ==> (Eval(TransBool(e), env) == YES <==> TransBoolKeeps(e, env, false))
    ensures Eval(e, env) != NO ==> TransBoolKeeps(e, env, true)
    ensures Eval(e, env) != YES ==> TransBoolKeeps(e, env, false)
  {
    match e
    case Symbol(_) =>
    case Compare(_, _, _) =>
      if TransBool(e) != e {
        TestOfMod(e, env);
      }
    case Not(a) => TransBoolMoves(a, env);
    case Bin(_, l, r) =>
      TransBoolMoves(l, env);
      TransBoolMoves(r, env);
  }

  /** For every expression, negations in any place: "is not n" is preserved if and only if the condition holds. */
  lemma TransBoolExact(e: Expr, env: Env)
    requires Typed(env)
    ensures (Eval(TransBool(e), env) != NO <==> Eval(e, env) != NO) <==> TransBoolKeeps(e, env, true)
  {
    TransBoolMoves(e, env);
  }

  /** Every ! stands on a symbol. */
  predicate NegatesSymbols(e: Expr) {
    match e
    case Symbol(_) => true
    case Compare(_, _, _) => true
    case Not(a) => a.Symbol?
    case Bin(_, l, r) => NegatesSymbols(l) && NegatesSymbols(r)
  }

  lemma {:induction false} FitsNegates(e: Expr)
    requires Fits(true, e)
    ensures NegatesSymbols(e)
  {
    if e.Bin? {
      FitsNegates(e.left);
      FitsNegates(e.right);
    }
  }

  lemma {:induction false} NegatesKeeps(e: Expr, env: Env)
    requires NegatesSymbols(e)
    ensures TransBoolKeeps(e, env, true)
  {
    if e.Bin? {
      NegatesKeeps(e.left, env);
      NegatesKeeps(e.right, env);
    }
  }

  /** On expressions with ! on symbols only, "is not n" is preserved; the value can only drop, from y to m. */
  lemma TransBoolVisible(e: Expr, env: Env)
    requires NegatesSymbols(e) && Typed(env)
    ensures Eval(TransBool(e), env) != NO <==> Eval(e, env) != NO
    ensures Eval(TransBool(e), env) <= Eval(e, env)
  {
    NegatesKeeps(e, env);
    TransBoolMoves(e, env);
  }

  /** Under a negation it can be lost: !(A!=n) is n for A=m, while the rewritten !A is m. Under two it is not. */
  lemma TransBoolNotUnderNegation()
    ensures var a := Sym(3, "A", Tristate, false);
      var e := Not(Compare(Unequal, a, SYM_NO));
      && Eval(e, Uniform(MOD)) == NO && Eval(TransBool(e), Uniform(MOD)) == MOD
      && !TransBoolKeeps(e, Uniform(MOD), true) && TransBoolKeeps(Not(e), Uniform(MOD), true)
  {
    var a := Sym(3, "A", Tristate, false);
    assert Typed(Uniform(MOD));
    TestOfMod(Compare(Unequal, a, SYM_NO), Uniform(MOD));
  }

  /** No tristate is tested for not being n. */
  predicate NoneTested(e: Expr) {
    match e
    case Symbol(_) => true
    case Compare(rel, l, r) => !(rel.Unequal? && l.typ.Tristate? && r == SYM_NO)
    case Not(a) => NoneTested(a)
    case Bin(_, l, r) => NoneTested(l) && NoneTested(r)
  }

  /** No such test is left, wherever it was, and nothing else is touched. */
  lemma {:induction false} TransBoolComplete(e: Expr)
    ensures NoneTested(TransBool(e))
    ensures TransBool(e) == e <==> NoneTested(e)
  {
    match e
    case Symbol(_) =>
    case Compare(_, _, _) =>
    case Not(a) => TransBoolComplete(a);
    case Bin(_, l, r) =>
      TransBoolComplete(l);
      TransBoolComplete(r);
  }

  // ---------- expr_trans_compare ----------

  /** expr_trans_compare(e, type, &symbol_no), for type = or !=. */
  function TransCompareNo(e: Expr, rel: Relation): Expr
    requires rel.Equal? || rel.Unequal?
  {
    match e
    case Bin(op, l, r) =>
      var both := Bin(Dual(op), TransCompareNo(l, Equal), TransCompareNo(r, Equal));
      if rel.Unequal? then Not(both) else both
    case Not(a) => TransCompareNo(a, if rel.Equal? then Unequal else Equal)
    case Compare(_, _, _) => if rel.Equal? then Not(e) else e
    case Symbol(s) => Compare(rel, s, SYM_NO)
  }

  /** Every symbol that stands for a truth value has one, or has the text n: others are n, but are compared by text. */
  predicate Known(e: Expr, env: Env) {
    match e
    case Symbol(s) => s.Logical() || CompareSyms(env, s, SYM_NO) == 0
    case Compare(_, _, _) => true
    case Not(a) => Known(a, env)
    case Bin(_, l, r) => Known(l, env) && Known(r, env)
  }

  /** Whether the comparison that expr_trans_compare builds tells n from the other values (asNo), or y from the other
      values. Symbols are always tested for n. So below an odd number of negations an m is taken for a y, and a symbol
      without a truth value for y unless its text is n. A compound is still seen when its value rests on an operand
      that is, or on a mistake about another one. */
  predicate Seen(e: Expr, env: Env, asNo: bool) {
    match e
    case Symbol(s) => if s.Logical() then asNo || TriOf(env, s) != MOD else CompareSyms(env, s, SYM_NO) == 0
    case Compare(_, _, _) => true
    case Not(a) => Seen(a, env, !asNo)
    case Bin(op, l, r) =>
      var v := if asNo then NO else YES;
      var (x, y) := (Eval(l, env) == v, Eval(r, env) == v);
      var (left, right) := (Seen(l, env, asNo), Seen(r, env, asNo));
      if op.And? == asNo then (if x || y then x == left || y == right else left && right)
      else (if x && y then left && right else x != left || y != right)
  }

  lemma SymbolTestNo(s: Sym, rel: Relation, env: Env)
    requires Typed(env) && s.Logical() && (rel.Equal? || rel.Unequal?)
    ensures Eval(Compare(rel, s, SYM_NO), env) == FromBool((TriOf(env, s) == NO) == rel.Equal?)
  {
    if s.typ.Boolean? || s.typ.Tristate? {
      LocalEvalCorrect(s, Compare(rel, s, SYM_NO), env);
    } else {
      ParseTriNames();
    }
  }

  /** The two comparisons with n that expr_trans_compare builds are opposites. */
  lemma {:induction false} TransCompareOpposites(e: Expr, env: Env)
    ensures Eval(TransCompareNo(e, Equal), env) in {NO, YES}
    ensures Eval(TransCompareNo(e, Unequal), env) == TriNot(Eval(TransCompareNo(e, Equal), env))
  {
    match e
    case Symbol(_) =>
    case Compare(_, _, _) =>
    case Not(a) => TransCompareOpposites(a, env);
    case Bin(_, l, r) =>
      TransCompareOpposites(l, env);
      TransCompareOpposites(r, env);
  }

  /** What the comparison says, for every expression. */
  lemma {:induction false} TransCompareReads(e: Expr, env: Env)
    requires Typed(env)
    ensures Eval(TransCompareNo(e, Equal), env) == YES <==> ((Eval(e, env) == NO) == Seen(e, env, true))
    ensures Eval(TransCompareNo(e, Equal), env) == YES <==> ((Eval(e, env) != YES) == Seen(e, env, false))
  {
    match e
    case Symbol(s) =>
      if s.Logical() {
        SymbolTestNo(s, Equal, env);
      }
    case Compare(_, _, _) =>
    case Not(a) =>
      TransCompareReads(a, env);
      TransCompareOpposites(a, env);
    case Bin(_, l, r) =>
      TransCompareReads(l, env);
      TransCompareReads(r, env);
      TransCompareOpposites(l, env);
      TransCompareOpposites(r, env);
  }

  /** "e is not n" is what the comparison says if and only if the condition holds, for every expression. */
  lemma TransCompareExact(e: Expr, env: Env)
    requires Typed(env)
    ensures Eval(TransCompareNo(e, Unequal), env) == FromBool(Eval(e, env) != NO) <==> Seen(e, env, true)
  {
    TransCompareReads(e, env);
    TransCompareOpposites(e, env);
  }

  /** Where all symbols are known, only m is ever mistaken. */
  lemma {:induction false} KnownSeen(e: Expr, env: Env)
    requires Typed(env) && Known(e, env)
    ensures Eval(e, env) != MOD ==> Seen(e, env, true) && Seen(e, env, false)
  {
    match e
    case Symbol(_) =>
    case Compare(_, _, _) =>
    case Not(a) => KnownSeen(a, env);
    case Bin(_, l, r) =>
      KnownSeen(l, env);
      KnownSeen(r, env);
      KnownOnce(l, env);
      KnownOnce(r, env);
  }

  /** And m is taken for n or for y, not for both. */
  lemma KnownOnce(e: Expr, env: Env)
    requires Typed(env)
    ensures Eval(e, env) == MOD ==> (Seen(e, env, true) <==> !Seen(e, env, false))
  {
    TransCompareReads(e, env);
  }

  /** Then the comparison errs towards n only: where it says that e is not n, it is not. */
  lemma TransCompareSafe(e: Expr, env: Env)
    requires Typed(env) && Known(e, env) && Eval(TransCompareNo(e, Unequal), env) != NO
    ensures Eval(e, env) != NO
  {
    KnownSeen(e, env);
    TransCompareReads(e, env);
    TransCompareOpposites(e, env);
  }

  predicate Unnegated(e: Expr) {
    match e
    case Symbol(_) => true
    case Compare(_, _, _) => true
    case Not(_) => false
    case Bin(_, l, r) => Unnegated(l) && Unnegated(r)
  }

  /** Without negations there are no mistakes about known symbols. */
  lemma {:induction false} UnnegatedSeen(e: Expr, env: Env)
    requires Known(e, env) && Unnegated(e)
    ensures Seen(e, env, true)
  {
    if e.Bin? {
      UnnegatedSeen(e.left, env);
      UnnegatedSeen(e.right, env);
    }
  }

  /** For a negated symbol: !A != n turns into A = n, which is wrong exactly when A is m. */
  lemma TransCompareNegatedSymbol(s: Sym, env: Env)
    requires Typed(env) && (s.typ.Boolean? || s.typ.Tristate?)
    ensures Eval(TransCompareNo(Not(Symbol(s)), Unequal), env) == FromBool(Eval(Not(Symbol(s)), env) != NO)
       <==> TriOf(env, s) != MOD
  {
    TransCompareExact(Not(Symbol(s)), env);
  }

  /** A symbol without a truth value, such as one that is not defined, is n, but is compared by its text. */
  lemma TransCompareOtherSymbol(s: Sym, env: Env)
    requires !s.Logical()
    ensures Eval(TransCompareNo(Symbol(s), Unequal), env) == FromBool(Eval(Symbol(s), env) != NO)
       <==> CompareSyms(env, s, SYM_NO) == 0
  {
  }

  // ---------- rewrite_m and the pipeline of menu_finalize ----------

  /** rewrite_m: the constant m, standing for a truth value, becomes m && MODULES. */
  function RewriteM(e: Expr, modules: Sym): Expr {
    match e
    case Symbol(s) => if s == SYM_MOD then Bin(And, e, Symbol(modules)) else e
    case Compare(_, _, _) => e
    case Not(a) => Not(RewriteM(a, modules))
    case Bin(op, l, r) => Bin(op, RewriteM(l, modules), RewriteM(r, modules))
  }

  /** The value of an expression when the constant m counts as m only as far as modules are enabled. */
  function EvalModules(e: Expr, env: Env, modules: Sym): Tri {
    match e
    case Symbol(s) => if s == SYM_MOD then TriAnd(MOD, TriOf(env, modules)) else TriOf(env, s)
    case Compare(_, _, _) => Eval(e, env)
    case Not(a) => TriNot(EvalModules(a, env, modules))
    case Bin(op, l, r) => ApplyOp(op, EvalModules(l, env, modules), EvalModules(r, env, modules))
  }

  function EvalModulesDep(d: Dep, env: Env, modules: Sym): Tri {
    if d.None? then YES else EvalModules(d.value, env, modules)
  }

  lemma {:induction false} RewriteMSound(e: Expr, env: Env, modules: Sym)
    ensures Eval(RewriteM(e, modules), env) == EvalModules(e, env, modules)
  {
    match e
    case Symbol(_) =>
    case Compare(_, _, _) =>
    case Not(a) => RewriteMSound(a, env, modules);
    case Bin(_, l, r) =>
      RewriteMSound(l, env, modules);
      RewriteMSound(r, env, modules);
  }

  lemma {:induction false} RewriteMFits(e: Expr, modules: Sym)
    requires Fits(false, e)
    ensures Fits(false, RewriteM(e, modules))
  {
    match e
    case Symbol(_) =>
    case Compare(_, _, _) =>
    case Not(a) => RewriteMFits(a, modules);
    case Bin(_, l, r) =>
      RewriteMFits(l, modules);
      RewriteMFits(r, modules);
  }

  /** expr_alloc_and: NULL is the identity. */
  function AllocAnd(a: Dep, b: Dep): Dep {
    if a.None? then b else if b.None? then a else Some(Bin(And, a.value, b.value))
  }

  predicate FitsDep(nnf: bool, d: Dep) {
    d.Some? ==> Fits(nnf, d.value)
  }

  /** The chain applied to every dependency and prompt condition: rewrite, transform, conjoin with what
      encloses it, drop duplicates. */
  function Propagate(enclosing: Dep, own: Dep, modules: Sym): Dep {
    var rewritten := if own.None? then None else Some(Transform(RewriteM(own.value, modules)));
    var joined := AllocAnd(enclosing, rewritten);
    if joined.None? then None else Some(EliminateDups(joined.value))
  }

  /** The condition of a prompt of a symbol of type typ. */
  function PropagatePrompt(enclosing: Dep, own: Dep, modules: Sym, typ: SymType): Dep {
    var d := Propagate(enclosing, own, modules);
    if d.None? || typ.Tristate? then d else Some(TransBool(d.value))
  }

  /** The chain keeps the value and the normal form that it relies on further down the menu tree. */
  lemma PropagateSound(enclosing: Dep, own: Dep, env: Env, modules: Sym)
    requires Typed(env) && FitsDep(true, enclosing) && FitsDep(false, own)
    ensures FitsDep(true, Propagate(enclosing, own, modules))
    ensures EvalDep(Propagate(enclosing, own, modules), env) ==
      TriAnd(EvalDep(enclosing, env), EvalModulesDep(own, env, modules))
  {
    if own.Some? {
      var m := RewriteM(own.value, modules);
      RewriteMSound(own.value, env, modules);
      RewriteMFits(own.value, modules);
      TransformSound(m, env);
      TransformFits(m);
    }
    var rewritten := if own.None? then None else Some(Transform(RewriteM(own.value, modules)));
    var joined := AllocAnd(enclosing, rewritten);
    if joined.Some? {
      EliminateDupsSound(true, joined.value, env);
    }
  }

  /** The condition of a property: exact for tristates; for other types "is not n" is kept, and y may become m. */
  lemma PropagatePromptSound(enclosing: Dep, own: Dep, env: Env, modules: Sym, typ: SymType)
    requires Typed(env) && FitsDep(true, enclosing) && FitsDep(false, own)
    ensures var (v, w) := (EvalDep(PropagatePrompt(enclosing, own, modules, typ), env),
                           TriAnd(EvalDep(enclosing, env), EvalModulesDep(own, env, modules)));
      (v != NO <==> w != NO) && v <= w && (typ.Tristate? ==> v == w)
  {
    PropagateSound(enclosing, own, env, modules);
    var d := Propagate(enclosing, own, modules);
    if d.Some? {
      FitsNegates(d.value);
      TransBoolVisible(d.value, env);
    }
  }
}
