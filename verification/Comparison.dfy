/** What comparisons of symbols mean: numbers by their value, strings by their characters, tristates by their value. */
module Comparison {
  import opened Wrappers
  import opened CStrings
  import opened Exprs

  predicate Related(rel: Relation, x: int, y: int) {
    match rel
    case Equal => x == y
    case Unequal => x != y
    case Lth => x < y
    case Leq => x <= y
    case Gth => x > y
    case Geq => x >= y
  }

  // ---------- the digits of a number ----------

  function DigitChar(d: nat): char
    requires d < 16
  {
    if d < 10 then ('0' as int + d) as char else ('a' as int + (d - 10)) as char
  }

  function Digits(base: nat, n: nat): (s: string)
    requires base == 10 || base == 16
    ensures s != ""
    decreases n
  {
    if n < base then [DigitChar(n)] else Digits(base, n / base) + [DigitChar(n % base)]
  }

  lemma DigitReads(d: nat)
    requires d < 16
    ensures DigitValue(DigitChar(d)) == d && !IsSpace(DigitChar(d)) && DigitChar(d) !in {'-', '+', 'x', 'X'}
    ensures DigitChar(d) == '0' <==> d == 0
  {
  }

  /** Every character is a digit, and only zero starts with one. */
  lemma {:induction false} DigitsAre(base: nat, n: nat)
    requires base == 10 || base == 16
    ensures forall i :: 0 <= i < |Digits(base, n)| ==> exists d :: 0 <= d < base && Digits(base, n)[i] == DigitChar(d)
    ensures Digits(base, n)[0] == '0' <==> n == 0
    ensures n == 0 ==> |Digits(base, n)| == 1
    decreases n
  {
    if n < base {
      DigitReads(n);
    } else {
      DigitsAre(base, n / base);
    }
  }

  /** Scanning up to position i and on is scanning on from there. */
  lemma {:induction false} ScanMore(s: string, i: nat, base: nat, acc: nat, m: nat, c: char, next: nat)
    requires i <= |s| && ScanDigits(s, i, base, acc) == (m, |s|) && DigitValue(c) < base
    requires next == m * base + DigitValue(c)
    ensures ScanDigits(s + [c], i, base, acc) == (next, |s| + 1)
    decreases |s| - i
  {
    var t := s + [c];
    if i < |s| {
      assert t[i] == s[i];
      ScanMore(s, i + 1, base, acc * base + DigitValue(s[i]), m, c, next);
    } else {
      assert t[i] == c;
      assert ScanDigits(t, i + 1, base, next) == (next, i + 1);
    }
  }

  lemma DivMod(n: nat, base: nat)
    requires base == 10 || base == 16
    ensures n / base * base + n % base == n && (n >= base ==> n / base < n)
  {
  }

  lemma ScanOne(prefix: string, base: nat, n: nat)
    requires n < base <= 16
    ensures ScanDigits(prefix + [DigitChar(n)], |prefix|, base, 0) == (n, |prefix| + 1)
  {
    DigitReads(n);
    var s := prefix + [DigitChar(n)];
    assert s[|prefix|] == DigitChar(n);
    assert ScanDigits(s, |prefix| + 1, base, 0 * base + n) == (n, |prefix| + 1);
  }

  lemma ScanNext(front: string, i: nat, base: nat, q: nat, d: nat, n: nat)
    requires i <= |front| && d < base <= 16 && n == q * base + d && ScanDigits(front, i, base, 0) == (q, |front|)
    ensures ScanDigits(front + [DigitChar(d)], i, base, 0) == (n, |front| + 1)
  {
    DigitReads(d);
    ScanMore(front, i, base, 0, q, DigitChar(d), n);
  }

  lemma ScanAppended(prefix: string, ds: string, base: nat, q: nat, d: nat, n: nat)
    requires d < base <= 16 && n == q * base + d && ScanDigits(prefix + ds, |prefix|, base, 0) == (q, |prefix + ds|)
    ensures var s := prefix + (ds + [DigitChar(d)]); ScanDigits(s, |prefix|, base, 0) == (n, |s|)
  {
    ScanNext(prefix + ds, |prefix|, base, q, d, n);
    assert prefix + (ds + [DigitChar(d)]) == prefix + ds + [DigitChar(d)];
  }

  lemma {:induction false} DigitsScan(prefix: string, base: nat, n: nat)
    requires base == 10 || base == 16
    ensures ScanDigits(prefix + Digits(base, n), |prefix|, base, 0) == (n, |prefix + Digits(base, n)|)
    decreases n
  {
    if n < base {
      ScanOne(prefix, base, n);
    } else {
      var (q, d) := (n / base, n % base);
      DivMod(n, base);
      DigitsScan(prefix, base, q);
      ScanAppended(prefix, Digits(base, q), base, q, d, n);
    }
  }

  /** A decimal number, with a sign if it is negative. */
  function Decimal(n: int): string {
    if n < 0 then "-" + Digits(10, -n) else Digits(10, n)
  }

  lemma DecimalScans(n: int, base: nat)
    requires base == 10 || base == 0
    ensures var r := StrToInteger(Decimal(n), base);
      r.tail == |Decimal(n)| && r.magnitude == (if n < 0 then -n else n) && (r.negative <==> n < 0)
  {
    var (m, s) := (if n < 0 then -n else n, Decimal(n));
    var (sign, ds) := (if n < 0 then "-" else "", Digits(10, m));
    DigitsAre(10, m);
    var d :| 0 <= d < 10 && ds[0] == DigitChar(d);
    DigitReads(d);
    assert s == sign + ds && s[|sign|] == ds[0];
    NoHexPrefix(sign, ds);
    DigitsScan(sign, 10, m);
    if n == 0 {
      assert ds == "0";
      assert ScanDigits(s, 0, 8, 0) == (0, 1) by { assert ScanDigits(s, 1, 8, 0) == (0, 1); }
    }
  }

  lemma NoHexPrefix(sign: string, ds: string)
    requires |ds| > 0 && forall i :: 0 <= i < |ds| ==> exists d :: 0 <= d < 10 && ds[i] == DigitChar(d)
    ensures |sign| + 1 < |sign + ds| ==> (sign + ds)[|sign| + 1] !in {'x', 'X'}
  {
    if |ds| > 1 {
      var d :| 0 <= d < 10 && ds[1] == DigitChar(d);
      DigitReads(d);
    }
  }

  /** A decimal number is read as its value. */
  lemma DecimalReads(n: int)
    requires LLONG_MIN <= n <= LLONG_MAX
    ensures StrToLL(Decimal(n), 10) == (n, |Decimal(n)|, true) && StrToLL(Decimal(n), 0) == (n, |Decimal(n)|, true)
    ensures ParseString(Decimal(n), Int) == Signed(n) && ParseString(Decimal(n), Unknown) == Signed(n)
  {
    DecimalScans(n, 10);
    DecimalScans(n, 0);
    LastDigit(n);
  }

  lemma LastDigit(n: int)
    ensures Decimal(n) != "" && DigitValue(Decimal(n)[|Decimal(n)| - 1]) < 16
  {
    var m := if n < 0 then -n else n;
    var ds := Digits(10, m);
    DigitsAre(10, m);
    var d :| 0 <= d < 10 && ds[|ds| - 1] == DigitChar(d);
    DigitReads(d);
  }

  lemma HexScans(n: nat, s: string)
    requires s == "0x" + Digits(16, n)
    ensures StrToInteger(s, 16) == StrToInteger(s, 0) == Scan(false, n, |s|)
    ensures |s| > 2 && DigitValue(s[|s| - 1]) < 16
  {
    var ds := Digits(16, n);
    DigitsAre(16, n);
    var d :| 0 <= d < 16 && ds[0] == DigitChar(d);
    var e :| 0 <= e < 16 && ds[|ds| - 1] == DigitChar(e);
    DigitReads(d);
    DigitReads(e);
    assert s[0] == '0' && s[1] == 'x' && s[2] == ds[0] && s[|s| - 1] == ds[|ds| - 1];
    DigitsScan("0x", 16, n);
    assert SkipSpaces(s, 0) == 0;
  }

  /** So is a hexadecimal one, with its prefix, whatever the type. */
  lemma HexReads(n: nat)
    requires n <= LLONG_MAX
    ensures var s := "0x" + Digits(16, n);
      && StrToLL(s, 16) == (n, |s|, true) && ParseString(s, Hex) == Unsigned(n)
      && ParseString(s, Unknown) == ParseString(s, String) == Signed(n)
  {
    HexScans(n, "0x" + Digits(16, n));
  }

  /** And one without, for a hex symbol. */
  lemma BareHexReads(n: nat)
    requires n <= LLONG_MAX
    ensures ParseString(Digits(16, n), Hex) == Unsigned(n)
  {
    var ds := Digits(16, n);
    DigitsAre(16, n);
    var d :| 0 <= d < 16 && ds[0] == DigitChar(d);
    var e :| 0 <= e < 16 && ds[|ds| - 1] == DigitChar(e);
    DigitReads(d);
    DigitReads(e);
    if |ds| > 1 {
      var f :| 0 <= f < 16 && ds[1] == DigitChar(f);
      DigitReads(f);
    }
    DigitsScan("", 16, n);
    assert "" + ds == ds && SkipSpaces(ds, 0) == 0;
    assert StrToInteger(ds, 16) == Scan(false, n, |ds|);
  }

  // ---------- numbers ----------

  /** The symbol has the text of a number, as its type reads it. Constants have no type. */
  predicate HasNumber(env: Env, s: Sym, n: int) {
    var v := StrOf(env, s);
    && LLONG_MIN <= n <= LLONG_MAX
    && match s.typ
       case Int => v == Decimal(n)
       case Hex => n >= 0 && (v == "0x" + Digits(16, n) || v == Digits(16, n))
       case Unknown | String => v == Decimal(n) || (n >= 0 && v == "0x" + Digits(16, n))
       case _ => false
  }

  lemma NumberParses(env: Env, s: Sym, n: int)
    requires HasNumber(env, s, n)
    ensures ParseString(StrOf(env, s), s.typ) == if s.typ.Hex? then Unsigned(n) else Signed(n)
  {
    DecimalReads(n);
    if n >= 0 {
      HexReads(n);
      BareHexReads(n);
    }
  }

  /** All six relations compare numbers by their values, whatever the types, unless both symbols are strings. */
  lemma NumbersCompare(rel: Relation, a: Sym, b: Sym, m: int, n: int, env: Env)
    requires HasNumber(env, a, m) && HasNumber(env, b, n) && !(a.typ.String? && b.typ.String?)
    requires a.typ.Hex? || b.typ.Hex? ==> m >= 0 && n >= 0
    ensures Eval(Compare(rel, a, b), env) == if Related(rel, m, n) then YES else NO
  {
    NumberParses(env, a, m);
    NumberParses(env, b, n);
  }

  /** A negative number is greater than every hex. */
  lemma NegativeAboveHex(rel: Relation, a: Sym, b: Sym, m: int, n: int, env: Env)
    requires HasNumber(env, a, m) && HasNumber(env, b, n) && a.typ.Hex? && n < 0
    ensures Eval(Compare(rel, a, b), env) == if rel in {Unequal, Lth, Leq} then YES else NO
    ensures Eval(Compare(rel, b, a), env) == if rel in {Unequal, Gth, Geq} then YES else NO
  {
    NumberParses(env, a, m);
    NumberParses(env, b, n);
  }

  // ---------- strings ----------

  /** The first difference of two strings is at k, and a is smaller there. */
  predicate SmallerAt(a: string, b: string, k: nat) {
    k <= |a| && k < |b| && a[..k] == b[..k] && (k == |a| || a[k] < b[k])
  }

  ghost predicate Smaller(a: string, b: string) {
    exists k: nat :: SmallerAt(a, b, k)
  }

  lemma {:induction false} StrCmpSign(a: string, b: string)
    ensures StrCmp(a, b) < 0 <==> Smaller(a, b)
    ensures StrCmp(a, b) > 0 <==> Smaller(b, a)
  {
    if a == "" || b == "" {
      assert b != "" ==> SmallerAt("", b, 0);
      assert a != "" ==> SmallerAt("", a, 0);
      assert a == "" ==> !Smaller(b, a);
      assert b == "" ==> !Smaller(a, b);
    } else if a[0] == b[0] {
      StrCmpSign(a[1..], b[1..]);
      SmallerTail(a, b);
      SmallerTail(b, a);
    } else {
      SmallerHead(a, b);
      SmallerHead(b, a);
    }
  }

  lemma SmallerTail(a: string, b: string)
    requires a != "" && b != "" && a[0] == b[0]
    ensures Smaller(a, b) <==> Smaller(a[1..], b[1..])
  {
    if Smaller(a, b) {
      var k: nat :| SmallerAt(a, b, k);
      assert k > 0;
      assert a[1..][..k - 1] == a[..k][1..] && b[1..][..k - 1] == b[..k][1..];
      assert SmallerAt(a[1..], b[1..], k - 1);
    }
    if Smaller(a[1..], b[1..]) {
      var k: nat :| SmallerAt(a[1..], b[1..], k);
      assert a[..k + 1] == [a[0]] + a[1..][..k] && b[..k + 1] == [b[0]] + b[1..][..k];
      assert SmallerAt(a, b, k + 1);
    }
  }

  lemma SmallerHead(a: string, b: string)
    requires a != "" && b != "" && a[0] != b[0]
    ensures Smaller(a, b) <==> a[0] < b[0]
  {
    if a[0] < b[0] {
      assert SmallerAt(a, b, 0);
    }
    if Smaller(a, b) {
      var k: nat :| SmallerAt(a, b, k);
      SamePrefixHead(a, b, k);
    }
  }

  lemma SamePrefixHead(a: string, b: string, k: nat)
    requires a != "" && b != "" && k <= |a| && k <= |b| && a[..k] == b[..k]
    ensures k == 0 || a[0] == b[0]
  {
    if k > 0 {
      assert a[..k][0] == a[0] && b[..k][0] == b[0];
    }
  }

  /** The text of the symbol is that of no number: it is empty, or begins like none. */
  predicate HasNoNumber(env: Env, s: Sym) {
    var v := StrOf(env, s);
    !s.typ.Boolean? && !s.typ.Tristate?
    && (v == "" || (!IsSpace(v[0]) && v[0] != '-' && v[0] != '+' && DigitValue(v[0]) >= 16))
  }

  lemma NoNumberParses(env: Env, s: Sym)
    requires HasNoNumber(env, s)
    ensures ParseString(StrOf(env, s), s.typ) == Str
  {
    var v := StrOf(env, s);
    assert SkipSpaces(v, 0) == 0;
    assert forall base :: base in {8, 10, 16} ==> ScanDigits(v, 0, base, 0) == (0, 0);
  }

  /** Two strings compare by their first difference, and so does everything with a text that is no number. */
  lemma StringsCompare(rel: Relation, a: Sym, b: Sym, env: Env)
    requires (a.typ.String? && b.typ.String?) || HasNoNumber(env, a) || HasNoNumber(env, b)
    ensures var (x, y) := (StrOf(env, a), StrOf(env, b));
      Eval(Compare(rel, a, b), env) ==
      if (match rel
          case Equal => x == y
          case Unequal => x != y
          case Lth => Smaller(x, y)
          case Leq => !Smaller(y, x)
          case Gth => Smaller(y, x)
          case Geq => !Smaller(x, y)) then YES else NO
  {
    if HasNoNumber(env, a) {
      NoNumberParses(env, a);
    }
    if HasNoNumber(env, b) {
      NoNumberParses(env, b);
    }
    assert CompareSyms(env, a, b) == StrCmp(StrOf(env, a), StrOf(env, b));
    StrCmpSign(StrOf(env, a), StrOf(env, b));
  }

  /** The texts that are compared: a bool or tristate that is m has the text n while modules are disabled, constants
      and symbols that are not defined have their names. */
  lemma TextIs(env: Env, s: Sym)
    ensures s.typ.Boolean? || s.typ.Tristate? ==>
      && (env.tri(s) == YES ==> StrOf(env, s) == "y") && (env.tri(s) == NO ==> StrOf(env, s) == "n")
      && (env.tri(s) == MOD ==> StrOf(env, s) == if TriOf(env, env.modules) == NO then "n" else "m")
    ensures s.typ.Unknown? ==> StrOf(env, s) == s.name
    ensures s.typ.Int? || s.typ.Hex? || s.typ.String? ==> StrOf(env, s) == env.str(s)
  {
  }

  // ---------- tristates ----------

  /** Two bools or tristates compare by their values. */
  lemma TristatesCompare(rel: Relation, a: Sym, b: Sym, env: Env)
    requires Typed(env) && (a.typ.Boolean? || a.typ.Tristate?) && (b.typ.Boolean? || b.typ.Tristate?)
    ensures Eval(Compare(rel, a, b), env) == if Related(rel, TriOf(env, a), TriOf(env, b)) then YES else NO
  {
    StringOfLogical(env, a);
    StringOfLogical(env, b);
  }

  /** The constants as texts are in the order m, n, y. */
  function TextRank(t: Tri): int { if t == MOD then 0 else if t == NO then 1 else 2 }

  function Constant(t: Tri): Sym { if t == NO then SYM_NO else if t == MOD then SYM_MOD else SYM_YES }

  /** A bool or tristate compared with y, m or n compares by text. */
  lemma ConstantsCompare(rel: Relation, a: Sym, t: Tri, env: Env)
    requires Typed(env) && (a.typ.Boolean? || a.typ.Tristate?)
    ensures Eval(Compare(rel, a, Constant(t)), env) ==
      if Related(rel, TextRank(TriOf(env, a)), TextRank(t)) then YES else NO
  {
    StringOfLogical(env, a);
    ParseTriNames();
    assert StrOf(env, a) == Constant(TriOf(env, a)).name;
    TextsInOrder(TriOf(env, a), t);
  }

  lemma TextsInOrder(t: Tri, u: Tri)
    ensures Related(Lth, StrCmp(Constant(t).name, Constant(u).name), 0) <==> TextRank(t) < TextRank(u)
    ensures Related(Gth, StrCmp(Constant(t).name, Constant(u).name), 0) <==> TextRank(t) > TextRank(u)
  {
  }

  /** So a relation with a constant says what the values say if and only if it is = or !=, or the values are equal, or
      one of them is y. */
  lemma ConstantsOrder(rel: Relation, a: Sym, t: Tri, env: Env)
    requires Typed(env) && (a.typ.Boolean? || a.typ.Tristate?)
    ensures var v := TriOf(env, a);
      Eval(Compare(rel, a, Constant(t)), env) == (if Related(rel, v, t) then YES else NO) <==>
        rel.Equal? || rel.Unequal? || v == t || v == YES || t == YES
  {
    ConstantsCompare(rel, a, t, env);
  }
}
