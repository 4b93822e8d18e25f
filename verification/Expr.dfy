/** The option datatype used throughout for C pointers that may be NULL. */
module Wrappers {
  datatype Option<+T> = None | Some(value: T)
}

/** Number parsing and comparison of C strings, as far as the expression evaluator relies on them. */
module CStrings {

  const LLONG_MIN: int := -0x8000_0000_0000_0000
  const LLONG_MAX: int := 0x7fff_ffff_ffff_ffff
  const ULLONG_MAX: int := 0xffff_ffff_ffff_ffff

  /** The sign of strcmp: the first differing character decides, a proper prefix is smaller. */
  function StrCmp(a: string, b: string): (r: int)
    ensures r == 0 <==> a == b
  {
    if a == [] then (if b == [] then 0 else -1)
    else if b == [] then 1
    else if a[0] < b[0] then -1
    else if b[0] < a[0] then 1
    else StrCmp(a[1..], b[1..])
  }

  predicate IsSpace(c: char) {
    c == ' ' || ('\t' <= c <= '\r')
  }

  /** The value of a digit in bases up to 36, or 36 for a character that is no digit. */
  function DigitValue(c: char): nat {
    if '0' <= c <= '9' then (c as int) - ('0' as int)
    else if 'a' <= c <= 'z' then (c as int) - ('a' as int) + 10
    else if 'A' <= c <= 'Z' then (c as int) - ('A' as int) + 10
    else 36
  }

  function SkipSpaces(s: string, i: nat): (r: nat)
    requires i <= |s|
    ensures i <= r <= |s|
    decreases |s| - i
  {
    if i < |s| && IsSpace(s[i]) then SkipSpaces(s, i + 1) else i
  }

  /** Accumulates digits from position i on: the number read and the position of the first character left over. */
  function ScanDigits(s: string, i: nat, base: nat, acc: nat): (r: (nat, nat))
    requires i <= |s|
    ensures i <= r.1 <= |s|
    decreases |s| - i
  {
    if i < |s| && DigitValue(s[i]) < base
    then ScanDigits(s, i + 1, base, acc * base + DigitValue(s[i]))
    else (acc, i)
  }

  /** The magnitude, the sign and the end position that strtoll and strtoull agree on. */
  datatype Scan = Scan(negative: bool, magnitude: nat, tail: nat)

  function StrToInteger(s: string, base: nat): (r: Scan)
    ensures r.tail <= |s|
  {
    var i := SkipSpaces(s, 0);
    var negative := i < |s| && s[i] == '-';
    var j := if i < |s| && (s[i] == '-' || s[i] == '+') then i + 1 else i;
    var hexPrefix := j + 2 < |s| && s[j] == '0' && (s[j + 1] == 'x' || s[j + 1] == 'X') && DigitValue(s[j + 2]) < 16;
    var (b, k) :=
      if (base == 0 || base == 16) && hexPrefix then (16, j + 2)
      else if base == 0 && j < |s| && s[j] == '0' then (8, j)
      else (if base == 0 then 10 else base, j);
    var (magnitude, tail) := ScanDigits(s, k, b, 0);
    if tail == k then Scan(false, 0, 0) else Scan(negative, magnitude, tail)
  }

  /** strtoll: the value clamped to the type's range, the tail position, and whether errno stayed clear. */
  function StrToLL(s: string, base: nat): (int, nat, bool) {
    var r := StrToInteger(s, base);
    var v: int := if r.negative then -(r.magnitude as int) else r.magnitude;
    if v < LLONG_MIN then (LLONG_MIN, r.tail, false)
    else if v > LLONG_MAX then (LLONG_MAX, r.tail, false)
    else (v, r.tail, true)
  }

  /** strtoull: a negative number wraps around. */
  function StrToULL(s: string, base: nat): (int, nat, bool) {
    var r := StrToInteger(s, base);
    if r.magnitude > ULLONG_MAX then (ULLONG_MAX, r.tail, false)
    else if r.negative && r.magnitude != 0 then (ULLONG_MAX + 1 - r.magnitude, r.tail, true)
    else (r.magnitude, r.tail, true)
  }
}

/** Tristates, symbols, expressions and their value (expr.h and the evaluator of expr.c). */
module Exprs {
  import opened Wrappers
  import opened CStrings

  /** no < mod < yes, numbered as in the enum. */
  type Tri = x: int | 0 <= x <= 2
  const NO: Tri := 0
  const MOD: Tri := 1
  const YES: Tri := 2

  function TriAnd(a: Tri, b: Tri): Tri { if a < b then a else b }
  function TriOr(a: Tri, b: Tri): Tri { if a > b then a else b }
  function TriNot(a: Tri): Tri { 2 - a }
  function FromBool(b: bool): Tri { if b then YES else NO }

  datatype SymType = Unknown | Boolean | Tristate | Int | Hex | String

  /** A symbol. The identifier plays the part of the C object's address. */
  datatype Sym = Sym(id: nat, name: string, typ: SymType, isConst: bool) {
    /** Symbols whose value is a tristate: bools, tristates and the three constants. */
    predicate Logical() {
      typ.Boolean? || typ.Tristate? || this in {SYM_NO, SYM_MOD, SYM_YES}
    }
  }
  const SYM_NO := Sym(0, "n", Unknown, true)
  const SYM_MOD := Sym(1, "m", Unknown, true)
  const SYM_YES := Sym(2, "y", Unknown, true)

  datatype Relation = Equal | Unequal | Lth | Leq | Gth | Geq
  datatype Op = And | Or

  /** Expression trees. Both binary operators share one constructor, because the code treats them alike. */
  datatype Expr =
    | Symbol(sym: Sym)
    | Compare(rel: Relation, lsym: Sym, rsym: Sym)
    | Not(arg: Expr)
    | Bin(op: Op, left: Expr, right: Expr)

  /** A possibly NULL expression, which means yes. */
  type Dep = Option<Expr>

  function Size(e: Expr): (n: nat)
    ensures n >= 1
  {
    match e
    case Symbol(_) => 1
    case Compare(_, _, _) => 1
    case Not(a) => 1 + Size(a)
    case Bin(_, l, r) => 1 + Size(l) + Size(r)
  }

  predicate IsOp(op: Op, e: Expr) {
    e.Bin? && e.op == op
  }

  function Unit(op: Op): Sym { if op.And? then SYM_YES else SYM_NO }
  function Zero(op: Op): Sym { if op.And? then SYM_NO else SYM_YES }

  /** The current values of all symbols, and which symbol is MODULES. */
  datatype Env = Env(tri: Sym -> Tri, str: Sym -> string, modules: Sym)

  /** curr.tri after the symbol has been calculated. */
  function TriOf(env: Env, s: Sym): Tri {
    if s == SYM_YES then YES
    else if s == SYM_MOD then MOD
    else if s.typ.Boolean? || s.typ.Tristate? then env.tri(s)
    else NO
  }

  /** sym_get_string_value. */
  function StrOf(env: Env, s: Sym): string {
    match s.typ
    case Boolean | Tristate =>
      (match TriOf(env, s)
       case 0 => "n"
       case 1 => if TriOf(env, env.modules) == NO then "n" else "m"
       case _ => "y")
    case Unknown => s.name
    case _ => env.str(s)
  }

  /** What the symbol solver guarantees: a bool is never m, and nothing is m when modules are off. */
  ghost predicate Typed(env: Env) {
    && (forall s: Sym :: s.typ.Boolean? ==> env.tri(s) != MOD)
    && (TriOf(env, env.modules) == NO ==> forall s: Sym :: s.typ.Tristate? ==> env.tri(s) != MOD)
  }

  datatype Parsed = Str | Signed(v: int) | Unsigned(u: int)

  function TriName(s: string): int {
    if s == "n" then 0 else if s == "m" then 1 else if s == "y" then 2 else -1
  }

  /** expr_parse_string. */
  function ParseString(s: string, typ: SymType): Parsed {
    if typ.Boolean? || typ.Tristate? then Signed(TriName(s))
    else
      var (v, tail, ok) := if typ.Int? then StrToLL(s, 10) else if typ.Hex? then StrToULL(s, 16) else StrToLL(s, 0);
      if ok && tail == |s| && 0 < tail && DigitValue(s[tail - 1]) < 16
      then (if typ.Hex? then Unsigned(v) else Signed(v))
      else Str
  }

  function AsUnsigned(p: Parsed): int
    requires !p.Str?
  {
    match p
    case Unsigned(u) => u
    case Signed(v) => if v < 0 then v + ULLONG_MAX + 1 else v
  }

  function Sign(a: int, b: int): int { if a > b then 1 else if a < b then -1 else 0 }

  /** The three-way comparison at the heart of every relation. */
  function CompareStrings(s1: string, t1: SymType, s2: string, t2: SymType): int {
    var (k1, k2) :=
      if !t1.String? || !t2.String? then (ParseString(s1, t1), ParseString(s2, t2)) else (Str, Str);
    if k1.Str? || k2.Str? then StrCmp(s1, s2)
    else if k1.Unsigned? || k2.Unsigned? then Sign(AsUnsigned(k1), AsUnsigned(k2))
    else Sign(k1.v, k2.v)
  }

  predicate Holds(rel: Relation, res: int) {
    match rel
    case Equal => res == 0
    case Unequal => res != 0
    case Lth => res < 0
    case Leq => res <= 0
    case Gth => res > 0
    case Geq => res >= 0
  }

  function ApplyOp(op: Op, a: Tri, b: Tri): Tri {
    if op.And? then TriAnd(a, b) else TriOr(a, b)
  }

  function CompareSyms(env: Env, l: Sym, r: Sym): int {
    CompareStrings(StrOf(env, l), l.typ, StrOf(env, r), r.typ)
  }

  /** expr_calc_value, over symbols that have already been calculated. */
  function Eval(e: Expr, env: Env): Tri {
    match e
    case Symbol(s) => TriOf(env, s)
    case Compare(rel, l, r) => FromBool(Holds(rel, CompareSyms(env, l, r)))
    case Not(a) => TriNot(Eval(a, env))
    case Bin(op, l, r) => ApplyOp(op, Eval(l, env), Eval(r, env))
  }

  function EvalDep(d: Dep, env: Env): Tri {
    if d.None? then YES else Eval(d.value, env)
  }

  // ---------- constants against tristates ----------

  /** The tristate value a constant is equal to, or -1 when no tristate value equals it. */
  function MatchIndex(c: Sym): int {
    match ParseString(c.name, c.typ)
    case Str => TriName(c.name)
    case Signed(v) => if 0 <= v <= 2 then v else -1
    case Unsigned(v) => if 0 <= v <= 2 then v else -1
  }

  lemma ParseTriNames()
    ensures ParseString("n", Unknown) == Str
    ensures ParseString("m", Unknown) == Str
    ensures ParseString("y", Unknown) == Str
    ensures MatchIndex(SYM_NO) == 0 && MatchIndex(SYM_MOD) == 1 && MatchIndex(SYM_YES) == 2
  {
    assert SkipSpaces("n", 0) == 0 && SkipSpaces("m", 0) == 0 && SkipSpaces("y", 0) == 0;
    assert ScanDigits("n", 0, 10, 0) == (0, 0);
    assert ScanDigits("m", 0, 10, 0) == (0, 0);
    assert ScanDigits("y", 0, 10, 0) == (0, 0);
  }

  lemma StringOfLogical(env: Env, s: Sym)
    requires Typed(env) && (s.typ.Boolean? || s.typ.Tristate?)
    ensures StrOf(env, s) == ["n", "m", "y"][env.tri(s)]
    ensures TriName(StrOf(env, s)) == env.tri(s) == TriOf(env, s)
  {
  }

  /** A tristate compared with an untyped constant is equal exactly when its value is the one the constant denotes. */
  lemma EqualToConstant(env: Env, a: Sym, c: Sym)
    requires Typed(env) && (a.typ.Boolean? || a.typ.Tristate?) && c.typ.Unknown?
    ensures CompareSyms(env, a, c) == 0 <==> MatchIndex(c) == TriOf(env, a)
  {
    StringOfLogical(env, a);
  }

  lemma EqualToTriConstant(env: Env, a: Sym)
    requires Typed(env) && (a.typ.Boolean? || a.typ.Tristate?)
    ensures CompareSyms(env, a, SYM_NO) == 0 <==> TriOf(env, a) == NO
    ensures CompareSyms(env, a, SYM_MOD) == 0 <==> TriOf(env, a) == MOD
    ensures CompareSyms(env, a, SYM_YES) == 0 <==> TriOf(env, a) == YES
  {
    ParseTriNames();
    EqualToConstant(env, a, SYM_NO);
    EqualToConstant(env, a, SYM_MOD);
    EqualToConstant(env, a, SYM_YES);
  }
}
