/** Printing expressions, and the lexer and the grammar that read them back. */
module Printing {
  import opened Wrappers
  import opened CStrings
  import opened Exprs
  import opened Sequences

  /** enum expr_type. */
  datatype Type = NONE | OR | AND | NOT | EQUAL | UNEQUAL | LTH | LEQ | GTH | GEQ | LIST | SYMBOL | RANGE

  function RelationType(r: Relation): Type {
    match r
    case Equal => EQUAL
    case Unequal => UNEQUAL
    case Lth => LTH
    case Leq => LEQ
    case Gth => GTH
    case Geq => GEQ
  }

  function TypeOf(e: Expr): Type {
    match e
    case Symbol(_) => SYMBOL
    case Compare(r, _, _) => RelationType(r)
    case Not(_) => NOT
    case Bin(And, _, _) => AND
    case Bin(Or, _, _) => OR
  }

  /** How far down its switch a type enters expr_compare_type; every case falls through to those below. */
  function Entry(t: Type): int {
    match t
    case LEQ | LTH | GEQ | GTH => 0
    case EQUAL | UNEQUAL => 1
    case NOT => 2
    case AND => 3
    case OR => 4
    case LIST => 5
    case _ => 6
  }

  /** expr_compare_type: 1 when an operand of type t2 needs parentheses inside t1. */
  function CompareType(t1: Type, t2: Type): int {
    if t1 == t2 then 0
    else if Entry(t1) <= 0 && (t2 == EQUAL || t2 == UNEQUAL) then 1
    else if Entry(t1) <= 1 && t2 == NOT then 1
    else if Entry(t1) <= 2 && t2 == AND then 1
    else if Entry(t1) <= 3 && t2 == OR then 1
    else if Entry(t1) <= 4 && t2 == LIST then 1
    else if Entry(t1) <= 5 && t2 == NONE then 1
    else -1
  }

  function Separator(op: Op): string { if op.And? then " && " else " || " }
  function OpType(op: Op): Type { if op.And? then AND else OR }

  function RelationText(r: Relation): string {
    match r
    case Equal => "="
    case Unequal => "!="
    case Lth => "<"
    case Leq => "<="
    case Gth => ">"
    case Geq => ">="
  }

  /** Choices have no name. */
  function LeftName(s: Sym): string {
    if s.name == "" && !s.isConst then "<choice>" else s.name
  }

  /** The text of an expression without parentheses around it: names are written as they are. */
  function Body(e: Expr): string
    decreases e, 0
  {
    match e
    case Symbol(s) => LeftName(s)
    case Compare(r, a, b) => LeftName(a) + RelationText(r) + b.name
    case Not(a) => "!" + Print(a, NOT)
    case Bin(op, a, b) => Print(a, OpType(op)) + Separator(op) + Print(b, OpType(op))
  }

  /** expr_print, below an operator of type prev. */
  function Print(e: Expr, prev: Type): string
    decreases e, 1
  {
    if CompareType(prev, TypeOf(e)) > 0 then "(" + Body(e) + ")" else Body(e)
  }

  class Printer {
    var out: string

    constructor ()
      ensures out == ""
    {
      out := "";
    }

    /** The function that the printer is given: it appends a string. */
    method Emit(t: string)
      modifies this
      ensures out == old(out) + t
    {
      out := out + t;
    }

    method ExprPrint(e: Expr, prev: Type)
      modifies this
      ensures out == old(out) + Print(e, prev)
      decreases e, 1
    {
      if CompareType(prev, TypeOf(e)) > 0 {
        ghost var start := out;
        Emit("(");
        PrintBody(e);
        Emit(")");
        AssociateFour(start, "(", Body(e), ")");
      } else {
        PrintBody(e);
      }
    }

    /** The switch of expr_print. */
    method PrintBody(e: Expr)
      modifies this
      ensures out == old(out) + Body(e)
      decreases e, 0
    {
      ghost var start := out;
      match e {
        case Symbol(s) =>
          Emit(LeftName(s));
        case Compare(r, a, b) =>
          Emit(LeftName(a));
          Emit(RelationText(r));
          Emit(b.name);
          AssociateFour(start, LeftName(a), RelationText(r), b.name);
        case Not(a) =>
          Emit("!");
          ExprPrint(a, NOT);
          Associate(start, "!", Print(a, NOT));
        case Bin(op, a, b) =>
          ExprPrint(a, OpType(op));
          Emit(Separator(op));
          ExprPrint(b, OpType(op));
          AssociateFour(start, Print(a, OpType(op)), Separator(op), Print(b, OpType(op)));
      }
    }
  }

  // ---------- the lexer ----------

  /** T_WORD and T_WORD_QUOTE, the words with a meaning of their own, operators, and what no expression contains. */
  datatype Token = Word(name: string, quoted: bool) | Keyword(text: string) | Rel(rel: Relation)
                 | Bang | AndAnd | OrOr | Open | Close | Other

  const KEYWORDS: set<string> :=
    {"bool", "choice", "comment", "config", "def_bool", "def_tristate", "default", "depends", "endchoice", "endif",
     "endmenu", "help", "hex", "if", "imply", "int", "mainmenu", "menu", "menuconfig", "modules", "on", "optional",
     "prompt", "range", "reset", "select", "source", "string", "tristate", "visible"}

  predicate IsQuote(c: char) { c == '"' || c == '\'' }

  /** A dollar that no parenthesis follows is a character like any other. */
  predicate IsWordChar(c: char) {
    'A' <= c <= 'Z' || 'a' <= c <= 'z' || '0' <= c <= '9' || c in {'_', '-', '/', '.', '$'}
  }

  /** The first character at or behind i that ends a word. */
  function WordEnd(s: string, i: nat): (r: nat)
    requires i <= |s|
    ensures i <= r <= |s| && (r < |s| ==> !IsWordChar(s[r])) && forall j :: i <= j < r ==> IsWordChar(s[j])
    decreases |s| - i
  {
    if i < |s| && IsWordChar(s[i]) then WordEnd(s, i + 1) else i
  }

  function LineEnd(s: string, i: nat): (r: nat)
    requires i <= |s|
    ensures i <= r <= |s|
    decreases |s| - i
  {
    if i < |s| && s[i] != '\n' then LineEnd(s, i + 1) else i
  }

  function WordToken(w: string): Token {
    if w in KEYWORDS then Keyword(w) else Word(w, false)
  }

  /** The text up to the closing quote or the end of the line, without backslashes, and what follows. References to
      variables are not expanded here. */
  function LexString(s: string, quote: char): (r: Option<(string, string)>)
    ensures r.Some? ==> |r.value.1| <= |s|
  {
    if s == "" || s[0] == '\n' then Some(("", s))
    else if s[0] == quote then Some(("", s[1..]))
    else if s[0] == '$' && |s| > 1 && s[1] == '(' then None
    else
      var n := if s[0] == '\\' && |s| > 1 && s[1] != '\n' then 2 else 1;
      var r := LexString(s[n..], quote);
      if r.None? then None
      else Some(((if s[0] == '\\' then s[1..n] else s[..1]) + r.value.0, r.value.1))
  }

  /** The operator that the text starts with, and its length. Other characters are ignored with a warning. */
  function Operator(s: string): (r: (Option<Token>, nat))
    requires s != ""
    ensures 1 <= r.1 <= |s|
  {
    var next := if |s| > 1 then s[1] else ' ';
    match s[0]
    case '|' => if next == '|' then (Some(OrOr), 2) else (None, 1)
    case '&' => if next == '&' then (Some(AndAnd), 2) else (None, 1)
    case '=' => (Some(Rel(Equal)), 1)
    case '!' => if next == '=' then (Some(Rel(Unequal)), 2) else (Some(Bang), 1)
    case '<' => if next == '=' then (Some(Rel(Leq)), 2) else (Some(Rel(Lth)), 1)
    case '>' => if next == '=' then (Some(Rel(Geq)), 2) else (Some(Rel(Gth)), 1)
    case '(' => (Some(Open), 1)
    case ')' => (Some(Close), 1)
    case ':' => if next == '=' then (Some(Other), 2) else (None, 1)
    case '+' => if next == '=' then (Some(Other), 2) else (None, 1)
    case '\n' => (Some(Other), 1)
    case _ => (None, 1)
  }

  function Prepend(ts: seq<Token>, more: Option<seq<Token>>): Option<seq<Token>> {
    if more.None? then None else Some(ts + more.value)
  }

  /** The lexer in its initial state: comments, blanks, continued lines, strings, words, operators. */
  function Lex(s: string): Option<seq<Token>>
    decreases |s|
  {
    if s == "" then Some([])
    else if s[0] == '#' then (var n := LineEnd(s[1..], 0); Lex(s[1..][n..]))
    else if s[0] == ' ' || s[0] == '\t' then Lex(s[1..])
    else if s[0] == '\\' && |s| > 1 && s[1] == '\n' then Lex(s[2..])
    else if IsQuote(s[0]) then
      var r := LexString(s[1..], s[0]);
      if r.None? then None else Prepend([Word(r.value.0, true)], Lex(r.value.1))
    else if IsWordChar(s[0]) then
      var n := WordEnd(s, 0);
      if n < |s| && s[n - 1] == '$' && s[n] == '(' then None else Prepend([WordToken(s[..n])], Lex(s[n..]))
    else
      var r := Operator(s);
      Prepend(if r.0.Some? then [r.0.value] else [], Lex(s[r.1..]))
  }

  // ---------- the grammar ----------

  /** sym_lookup: a name, and whether it is quoted. */
  type Table = (string, bool) -> Sym

  datatype Parsed = Got(e: Expr, rest: seq<Token>) | SyntaxError

  /** The highest precedence: symbols, comparisons, negations and parentheses. */
  function ParseUnary(t: Table, ts: seq<Token>): (r: Parsed)
    ensures r.Got? ==> |r.rest| < |ts|
    decreases |ts|, 0
  {
    if ts == [] then SyntaxError
    else
      match ts[0]
      case Bang =>
        var r := ParseUnary(t, ts[1..]);
        if r.SyntaxError? then SyntaxError else Got(Not(r.e), r.rest)
      case Open =>
        var r := ParseOr(t, ts[1..]);
        if r.SyntaxError? || r.rest == [] || r.rest[0] != Close then SyntaxError else Got(r.e, r.rest[1..])
      case Word(n, q) =>
        if |ts| >= 3 && ts[1].Rel? && ts[2].Word? then
          Got(Compare(ts[1].rel, t(n, q), t(ts[2].name, ts[2].quoted)), ts[3..])
        else if |ts| >= 2 && ts[1].Rel? then SyntaxError
        else Got(Symbol(t(n, q)), ts[1..])
      case _ => SyntaxError
  }

  /** Conjunctions group to the left: e has been read, more may follow. */
  function AndTail(t: Table, e: Expr, ts: seq<Token>): (r: Parsed)
    ensures r.Got? ==> |r.rest| <= |ts|
    decreases |ts|, 1
  {
    if ts == [] || ts[0] != AndAnd then Got(e, ts)
    else
      var r := ParseUnary(t, ts[1..]);
      if r.SyntaxError? then SyntaxError else AndTail(t, Bin(And, e, r.e), r.rest)
  }

  function ParseAnd(t: Table, ts: seq<Token>): (r: Parsed)
    ensures r.Got? ==> |r.rest| < |ts|
    decreases |ts|, 2
  {
    var r := ParseUnary(t, ts);
    if r.SyntaxError? then SyntaxError else AndTail(t, r.e, r.rest)
  }

  /** Disjunctions bind weakest. */
  function OrTail(t: Table, e: Expr, ts: seq<Token>): (r: Parsed)
    ensures r.Got? ==> |r.rest| <= |ts|
    decreases |ts|, 3
  {
    if ts == [] || ts[0] != OrOr then Got(e, ts)
    else
      var r := ParseAnd(t, ts[1..]);
      if r.SyntaxError? then SyntaxError else OrTail(t, Bin(Or, e, r.e), r.rest)
  }

  function ParseOr(t: Table, ts: seq<Token>): (r: Parsed)
    ensures r.Got? ==> |r.rest| < |ts|
    decreases |ts|, 4
  {
    var r := ParseAnd(t, ts);
    if r.SyntaxError? then SyntaxError else OrTail(t, r.e, r.rest)
  }

  /** A whole expression. */
  function Parse(t: Table, ts: seq<Token>): Option<Expr> {
    var r := ParseOr(t, ts);
    if r.Got? && r.rest == [] then Some(r.e) else None
  }

  /** Reading a text as an expression. */
  function Read(t: Table, s: string): Option<Expr> {
    var ts := Lex(s);
    if ts.None? then None else Parse(t, ts.value)
  }

  // ---------- re-association ----------

  /** e with every chain of the same operator grouped to the left. */
  function LeftAssoc(e: Expr): Expr
    decreases e, 0
  {
    match e
    case Symbol(_) => e
    case Compare(_, _, _) => e
    case Not(a) => Not(LeftAssoc(a))
    case Bin(op, a, b) => Attach(op, LeftAssoc(a), b)
  }

  /** The operands of e attached one after the other. */
  function Attach(op: Op, acc: Expr, e: Expr): (r: Expr)
    ensures IsOp(op, r)
    decreases e, 1
  {
    if IsOp(op, e) then Attach(op, Attach(op, acc, e.left), e.right) else Bin(op, acc, LeftAssoc(e))
  }

  lemma {:induction false} AttachKeepsValue(op: Op, acc: Expr, e: Expr, env: Env)
    ensures Eval(Attach(op, acc, e), env) == ApplyOp(op, Eval(acc, env), Eval(e, env))
    decreases e, 1
  {
    if IsOp(op, e) {
      AttachKeepsValue(op, acc, e.left, env);
      AttachKeepsValue(op, Attach(op, acc, e.left), e.right, env);
    } else {
      LeftAssocKeepsValue(e, env);
    }
  }

  lemma {:induction false} LeftAssocKeepsValue(e: Expr, env: Env)
    ensures Eval(LeftAssoc(e), env) == Eval(e, env)
    decreases e, 0
  {
    match e
    case Symbol(_) =>
    case Compare(_, _, _) =>
    case Not(a) => LeftAssocKeepsValue(a, env);
    case Bin(op, a, b) =>
      LeftAssocKeepsValue(a, env);
      AttachKeepsValue(op, LeftAssoc(a), b, env);
  }

  // ---------- the tokens of a printed expression ----------

  function NameToken(s: Sym): Token { Word(s.name, false) }

  function BodyTokens(e: Expr): (r: seq<Token>)
    ensures r != []
    decreases e, 0
  {
    match e
    case Symbol(s) => [NameToken(s)]
    case Compare(r, a, b) => [NameToken(a), Rel(r), NameToken(b)]
    case Not(a) => [Bang] + Tokens(a, NOT)
    case Bin(op, a, b) => Tokens(a, OpType(op)) + [OpToken(op)] + Tokens(b, OpType(op))
  }

  function Tokens(e: Expr, prev: Type): (r: seq<Token>)
    ensures r != []
    decreases e, 1
  {
    if CompareType(prev, TypeOf(e)) > 0 then [Open] + BodyTokens(e) + [Close] else BodyTokens(e)
  }

  function OpToken(op: Op): Token { if op.And? then AndAnd else OrOr }

  /** The symbols of an expression from left to right. */
  function Mentions(e: Expr): seq<Sym> {
    match e
    case Symbol(s) => [s]
    case Compare(_, a, b) => [a, b]
    case Not(a) => Mentions(a)
    case Bin(_, a, b) => Mentions(a) + Mentions(b)
  }

  /** A name that the lexer reads as one word. */
  predicate IsName(n: string) {
    n != "" && n !in KEYWORDS && forall i :: 0 <= i < |n| ==> IsWordChar(n[i])
  }

  predicate Named(e: Expr) {
    forall s :: s in Mentions(e) ==> IsName(s.name)
  }

  /** What may follow a word. */
  predicate Ends(k: string) {
    k == "" || (!IsWordChar(k[0]) && k[0] != '(')
  }

  lemma WordLexes(n: string, k: string)
    requires IsName(n) && Ends(k)
    ensures Lex(n + k) == Prepend([Word(n, false)], Lex(k))
  {
    var s := n + k;
    assert forall i :: 0 <= i < |n| ==> s[i] == n[i];
    assert k != "" ==> s[|n|] == k[0];
    var w := WordEnd(s, 0);
    assert w == |n|;
    assert s[..w] == n && s[w..] == k;
    assert IsWordChar(s[0]);
  }

  lemma RelationLexes(r: Relation, k: string)
    requires k != "" && k[0] != '='
    ensures Lex(RelationText(r) + k) == Prepend([Rel(r)], Lex(k))
  {
    var s := RelationText(r) + k;
    var n := |RelationText(r)|;
    assert s[n] == k[0] && s[n..] == k;
    OperatorLexes(s, Rel(r), n, k);
  }

  /** An operator is read on its own when it is the one that the text starts with. */
  lemma OperatorLexes(s: string, token: Token, n: nat, k: string)
    requires s != "" && Operator(s) == (Some(token), n) && s[n..] == k
    requires s[0] in {'(', ')', '!', '=', '<', '>', '&', '|'}
    ensures Lex(s) == Prepend([token], Lex(k))
  {
  }

  lemma CharLexes(c: char, token: Token, k: string)
    requires || (c == '(' && token == Open) || (c == ')' && token == Close)
             || (c == '!' && token == Bang && k != "" && k[0] != '=')
    ensures Lex([c] + k) == Prepend([token], Lex(k))
  {
    var s := [c] + k;
    assert s[1..] == k && s[0] == c;
    assert c == '!' ==> s[1] == k[0];
    OperatorLexes(s, token, 1, k);
  }

  lemma SeparatorLexes(op: Op, k: string)
    ensures Lex(Separator(op) + k) == Prepend([OpToken(op)], Lex(k))
  {
    var s := Separator(op) + k;
    var t := s[1..];
    assert s[0] == ' ' && |t| >= 3 && t[0] == t[1] == (if op.And? then '&' else '|');
    assert Operator(t) == (Some(OpToken(op)), 2);
    assert t[2] == ' ' && t[2..][1..] == k;
    assert Lex(t[2..]) == Lex(k);
  }

  lemma PrependTwice(a: seq<Token>, b: seq<Token>, more: Option<seq<Token>>)
    ensures Prepend(a, Prepend(b, more)) == Prepend(a + b, more)
  {
    if more.Some? {
      Associate(a, b, more.value);
    }
  }

  /** The printed form starts with a name, a parenthesis or a negation. */
  lemma {:induction false} PrintStarts(e: Expr, prev: Type, k: string)
    requires Named(e)
    ensures Print(e, prev) != "" && Print(e, prev)[0] != '=' && (Print(e, prev) + k)[0] != '='
    decreases e
  {
    match e
    case Symbol(s) => assert s in Mentions(e);
    case Compare(_, a, _) => assert a in Mentions(e);
    case Not(_) =>
    case Bin(op, a, _) =>
      NamedParts(e);
      PrintStarts(a, OpType(op), k);
  }

  lemma NamedParts(e: Expr)
    requires Named(e)
    ensures e.Not? ==> Named(e.arg)
    ensures e.Bin? ==> Named(e.left) && Named(e.right)
  {
    if e.Bin? {
      assert forall s :: s in Mentions(e.left) || s in Mentions(e.right) ==> s in Mentions(e);
    }
  }

  /** The lexer gives the tokens of an expression, whatever follows its text. */
  lemma {:induction false} PrintLexes(e: Expr, prev: Type, k: string)
    requires Named(e) && Ends(k)
    ensures Lex(Print(e, prev) + k) == Prepend(Tokens(e, prev), Lex(k))
    decreases e, 1
  {
    if CompareType(prev, TypeOf(e)) > 0 {
      BodyLexes(e, ")" + k);
      ParensLex(Body(e), BodyTokens(e), k);
    } else {
      BodyLexes(e, k);
    }
  }

  lemma ParensLex(body: string, ts: seq<Token>, k: string)
    requires Lex(body + (")" + k)) == Prepend(ts, Lex(")" + k))
    ensures Lex("(" + body + ")" + k) == Prepend([Open] + ts + [Close], Lex(k))
  {
    CharLexes(')', Close, k);
    CharLexes('(', Open, body + (")" + k));
    AssociateFour("(", body, ")", k);
    Associate(body, ")", k);
    PrependTwice(ts, [Close], Lex(k));
    PrependTwice([Open], ts + [Close], Lex(k));
    Associate([Open], ts, [Close]);
  }

  lemma {:induction false} BodyLexes(e: Expr, k: string)
    requires Named(e) && Ends(k)
    ensures Lex(Body(e) + k) == Prepend(BodyTokens(e), Lex(k))
    decreases e, 0
  {
    NamedParts(e);
    match e
    case Symbol(s) =>
      assert s in Mentions(e);
      WordLexes(s.name, k);
    case Compare(r, a, b) =>
      assert a in Mentions(e) && b in Mentions(e);
      assert LeftName(a) == a.name;
      CompareLexes(r, a, b, k);
    case Not(a) =>
      PrintLexes(a, NOT, k);
      PrintStarts(a, NOT, k);
      CharLexes('!', Bang, Print(a, NOT) + k);
      Associate("!", Print(a, NOT), k);
      PrependTwice([Bang], Tokens(a, NOT), Lex(k));
    case Bin(op, a, b) =>
      PrintLexes(b, OpType(op), k);
      PrintLexes(a, OpType(op), Separator(op) + (Print(b, OpType(op)) + k));
      OperandsLex(op, Print(a, OpType(op)), Tokens(a, OpType(op)), Print(b, OpType(op)), Tokens(b, OpType(op)), k);
  }

  lemma OperandsLex(op: Op, x: string, xs: seq<Token>, y: string, ys: seq<Token>, k: string)
    requires Lex(x + (Separator(op) + (y + k))) == Prepend(xs, Lex(Separator(op) + (y + k)))
    requires Lex(y + k) == Prepend(ys, Lex(k))
    ensures Lex(x + Separator(op) + y + k) == Prepend(xs + [OpToken(op)] + ys, Lex(k))
  {
    SeparatorLexes(op, y + k);
    AssociateFour(x, Separator(op), y, k);
    Associate(Separator(op), y, k);
    PrependTwice([OpToken(op)], ys, Lex(k));
    PrependTwice(xs, [OpToken(op)] + ys, Lex(k));
    Associate(xs, [OpToken(op)], ys);
  }

  lemma CompareLexes(r: Relation, a: Sym, b: Sym, k: string)
    requires IsName(a.name) && IsName(b.name) && Ends(k)
    ensures Lex(a.name + RelationText(r) + b.name + k) == Prepend([NameToken(a), Rel(r), NameToken(b)], Lex(k))
  {
    WordLexes(b.name, k);
    RelationLexes(r, b.name + k);
    RelationStarts(r, b.name + k);
    WordLexes(a.name, RelationText(r) + (b.name + k));
    ThreeLex(a.name, NameToken(a), RelationText(r), Rel(r), b.name, NameToken(b), k);
  }

  lemma RelationStarts(r: Relation, k: string)
    ensures Ends(RelationText(r) + k)
  {
  }

  lemma ThreeLex(x: string, xt: Token, y: string, yt: Token, z: string, zt: Token, k: string)
    requires Lex(x + (y + (z + k))) == Prepend([xt], Lex(y + (z + k)))
    requires Lex(y + (z + k)) == Prepend([yt], Lex(z + k)) && Lex(z + k) == Prepend([zt], Lex(k))
    ensures Lex(x + y + z + k) == Prepend([xt, yt, zt], Lex(k))
  {
    var more := Lex(k);
    AssociateFour(x, y, z, k);
    Associate(y, z, k);
    PrependTwice([yt], [zt], more);
    PrependTwice([xt], [yt] + [zt], more);
    assert [xt] + ([yt] + [zt]) == [xt, yt, zt];
  }

  // ---------- the grammar on these tokens ----------

  /** Every symbol is the one that its bare name stands for. */
  predicate Found(t: Table, e: Expr) {
    match e
    case Symbol(s) => t(s.name, false) == s
    case Compare(_, a, b) => t(a.name, false) == a && t(b.name, false) == b
    case Not(a) => Found(t, a)
    case Bin(_, a, b) => Found(t, a) && Found(t, b)
  }

  /** Parentheses stand exactly around disjunctions in conjunctions and around both in negations. */
  lemma WhenParens(e: Expr)
    ensures CompareType(NONE, TypeOf(e)) <= 0 && CompareType(OR, TypeOf(e)) <= 0
    ensures CompareType(AND, TypeOf(e)) > 0 <==> IsOp(Or, e)
    ensures CompareType(NOT, TypeOf(e)) > 0 <==> e.Bin?
  {
  }

  predicate Starts(k: seq<Token>, token: Token) {
    k != [] && k[0] == token
  }

  /** What may follow an operand. */
  predicate Follows(k: seq<Token>) {
    k == [] || !k[0].Rel?
  }

  lemma WordReads(t: Table, s: Sym, k: seq<Token>)
    requires Follows(k) && t(s.name, false) == s
    ensures ParseUnary(t, [NameToken(s)] + k) == Got(Symbol(s), k)
  {
  }

  lemma CompareReads(t: Table, r: Relation, a: Sym, b: Sym, k: seq<Token>)
    requires t(a.name, false) == a && t(b.name, false) == b
    ensures ParseUnary(t, [NameToken(a), Rel(r), NameToken(b)] + k) == Got(Compare(r, a, b), k)
  {
    assert ([NameToken(a), Rel(r), NameToken(b)] + k)[3..] == k;
  }

  lemma BangReads(t: Table, ts: seq<Token>, e: Expr, k: seq<Token>)
    requires ParseUnary(t, ts + k) == Got(e, k)
    ensures ParseUnary(t, [Bang] + ts + k) == Got(Not(e), k)
  {
    assert ([Bang] + ts + k)[1..] == ts + k;
  }

  lemma ParensRead(t: Table, ts: seq<Token>, e: Expr, k: seq<Token>)
    requires ParseOr(t, ts + ([Close] + k)) == Got(e, [Close] + k)
    ensures ParseUnary(t, [Open] + ts + [Close] + k) == Got(e, k)
  {
    assert ([Open] + ts + [Close] + k)[1..] == ts + ([Close] + k);
    assert ([Close] + k)[1..] == k;
  }

  lemma {:induction false} UnaryReads(t: Table, prev: Type, e: Expr, k: seq<Token>)
    requires prev == NOT || (prev == AND && !IsOp(And, e))
    requires Follows(k) && Found(t, e)
    ensures ParseUnary(t, Tokens(e, prev) + k) == Got(LeftAssoc(e), k)
    decreases e, if e.Bin? then 5 else 0
  {
    WhenParens(e);
    match e
    case Symbol(s) => WordReads(t, s, k);
    case Compare(r, a, b) => CompareReads(t, r, a, b, k);
    case Not(a) =>
      UnaryReads(t, NOT, a, k);
      BangReads(t, Tokens(a, NOT), LeftAssoc(a), k);
    case Bin(_, _, _) =>
      OrReads(t, e, [Close] + k);
      ParensRead(t, BodyTokens(e), LeftAssoc(e), k);
  }

  /** One operand more, with the tokens ts. */
  lemma AndTailOne(t: Table, acc: Expr, ts: seq<Token>, e: Expr, k: seq<Token>)
    requires ParseUnary(t, ts + k) == Got(e, k)
    ensures AndTail(t, acc, [AndAnd] + ts + k) == AndTail(t, Bin(And, acc, e), k)
  {
    assert ([AndAnd] + ts + k)[1..] == ts + k;
  }

  lemma {:induction false} AndTailReads(t: Table, acc: Expr, e: Expr, k: seq<Token>)
    requires Follows(k) && Found(t, e)
    ensures AndTail(t, acc, [AndAnd] + Tokens(e, AND) + k) == AndTail(t, Attach(And, acc, e), k)
    decreases e, 6
  {
    WhenParens(e);
    if IsOp(And, e) {
      AssociateFive([AndAnd], Tokens(e.left, AND), [AndAnd], Tokens(e.right, AND), k);
      AssociateFour(Tokens(e.left, AND), [AndAnd], Tokens(e.right, AND), k);
      AndTailReads(t, acc, e.left, [AndAnd] + Tokens(e.right, AND) + k);
      AndTailReads(t, Attach(And, acc, e.left), e.right, k);
    } else {
      UnaryReads(t, AND, e, k);
      AndTailOne(t, acc, Tokens(e, AND), LeftAssoc(e), k);
    }
  }

  lemma {:induction false} AndReads(t: Table, e: Expr, k: seq<Token>)
    requires Follows(k) && !IsOp(Or, e) && Found(t, e)
    ensures ParseAnd(t, BodyTokens(e) + k) == AndTail(t, LeftAssoc(e), k)
    decreases e, 3
  {
    WhenParens(e);
    if IsOp(And, e) {
      AssociateFive([AndAnd], Tokens(e.left, AND), [AndAnd], Tokens(e.right, AND), k);
      AssociateFour(Tokens(e.left, AND), [AndAnd], Tokens(e.right, AND), k);
      AndStart(t, e.left, [AndAnd] + Tokens(e.right, AND) + k);
      AndTailReads(t, LeftAssoc(e.left), e.right, k);
    } else {
      UnaryReads(t, AND, e, k);
    }
  }

  /** The first operand of a conjunction. */
  lemma {:induction false} AndStart(t: Table, e: Expr, k: seq<Token>)
    requires Follows(k) && Found(t, e)
    ensures ParseAnd(t, Tokens(e, AND) + k) == AndTail(t, LeftAssoc(e), k)
    decreases e, 6
  {
    WhenParens(e);
    if IsOp(And, e) {
      AndReads(t, e, k);
    } else {
      UnaryReads(t, AND, e, k);
    }
  }

  lemma OrTailOne(t: Table, acc: Expr, ts: seq<Token>, e: Expr, k: seq<Token>)
    requires ParseAnd(t, ts + k) == Got(e, k)
    ensures OrTail(t, acc, [OrOr] + ts + k) == OrTail(t, Bin(Or, acc, e), k)
  {
    assert ([OrOr] + ts + k)[1..] == ts + k;
  }

  /** The operands of a disjunction never need parentheses. */
  lemma OrBody(e: Expr)
    requires IsOp(Or, e)
    ensures BodyTokens(e) == BodyTokens(e.left) + [OrOr] + BodyTokens(e.right)
  {
    WhenParens(e.left);
    WhenParens(e.right);
  }

  lemma {:induction false} OrTailReads(t: Table, acc: Expr, e: Expr, k: seq<Token>)
    requires Follows(k) && !Starts(k, AndAnd) && Found(t, e)
    ensures OrTail(t, acc, [OrOr] + BodyTokens(e) + k) == OrTail(t, Attach(Or, acc, e), k)
    decreases e, 6
  {
    if IsOp(Or, e) {
      OrBody(e);
      AssociateFive([OrOr], BodyTokens(e.left), [OrOr], BodyTokens(e.right), k);
      AssociateFour(BodyTokens(e.left), [OrOr], BodyTokens(e.right), k);
      OrTailReads(t, acc, e.left, [OrOr] + BodyTokens(e.right) + k);
      OrTailReads(t, Attach(Or, acc, e.left), e.right, k);
    } else {
      AndReads(t, e, k);
      OrTailOne(t, acc, BodyTokens(e), LeftAssoc(e), k);
    }
  }

  lemma {:induction false} OrReads(t: Table, e: Expr, k: seq<Token>)
    requires Follows(k) && !Starts(k, AndAnd) && Found(t, e)
    ensures ParseOr(t, BodyTokens(e) + k) == OrTail(t, LeftAssoc(e), k)
    decreases e, 4
  {
    if IsOp(Or, e) {
      OrBody(e);
      AssociateFive([OrOr], BodyTokens(e.left), [OrOr], BodyTokens(e.right), k);
      AssociateFour(BodyTokens(e.left), [OrOr], BodyTokens(e.right), k);
      OrReads(t, e.left, [OrOr] + BodyTokens(e.right) + k);
      OrTailReads(t, LeftAssoc(e.left), e.right, k);
    } else {
      AndReads(t, e, k);
    }
  }

  // ---------- the round trip ----------

  /** What sym_lookup promises: the symbol has the name, and the three constants stand for themselves. */
  ghost predicate Lookup(t: Table) {
    && (forall n, q {:trigger t(n, q)} :: t(n, q).name == n)
    && forall q {:trigger t("y", q)} :: t("y", q) == SYM_YES && t("m", q) == SYM_MOD && t("n", q) == SYM_NO
  }

  /** The names are words, and each stands for the symbol that has it. */
  predicate Readable(t: Table, e: Expr) {
    forall s :: s in Mentions(e) ==> IsName(s.name) && t(s.name, false) == s
  }

  lemma {:induction false} ReadableFound(t: Table, e: Expr)
    requires Readable(t, e)
    ensures Named(e) && Found(t, e)
  {
    match e
    case Symbol(_) =>
    case Compare(_, a, b) => assert a in Mentions(e) && b in Mentions(e);
    case Not(a) => ReadableFound(t, a);
    case Bin(_, a, b) =>
      assert forall s :: s in Mentions(a) || s in Mentions(b) ==> s in Mentions(e);
      ReadableFound(t, a);
      ReadableFound(t, b);
  }

  lemma ReadsBack(t: Table, e: Expr)
    requires Readable(t, e)
    ensures Read(t, Print(e, NONE)) == Some(LeftAssoc(e))
  {
    ReadableFound(t, e);
    WhenParens(e);
    PrintLexes(e, NONE, "");
    assert Print(e, NONE) + "" == Print(e, NONE);
    assert Tokens(e, NONE) + [] == BodyTokens(e) + [] == BodyTokens(e);
    OrReads(t, e, []);
  }

  // ---------- what is read comes from the text ----------

  function Quotes(s: string): nat {
    if s == "" then 0 else (if IsQuote(s[0]) then 1 else 0) + Quotes(s[1..])
  }

  lemma {:induction false} QuotesConcat(a: string, b: string)
    ensures Quotes(a + b) == Quotes(a) + Quotes(b)
  {
    if a == "" {
      assert a + b == b;
    } else {
      assert (a + b)[0] == a[0] && (a + b)[1..] == a[1..] + b;
      QuotesConcat(a[1..], b);
    }
  }

  lemma QuotesSplit(s: string, n: nat)
    requires n <= |s|
    ensures Quotes(s) == Quotes(s[..n]) + Quotes(s[n..])
  {
    assert s == s[..n] + s[n..];
    QuotesConcat(s[..n], s[n..]);
  }

  /** The quotes in the words, and one more for each word in quotes. */
  function TokenQuotes(ts: seq<Token>): nat {
    if ts == [] then 0
    else (if ts[0].Word? then Quotes(ts[0].name) + (if ts[0].quoted then 1 else 0) else 0) + TokenQuotes(ts[1..])
  }

  predicate PlainWords(ts: seq<Token>) {
    forall i :: 0 <= i < |ts| && ts[i].Word? && !ts[i].quoted ==> IsName(ts[i].name)
  }

  lemma {:induction false} StringQuotes(s: string, quote: char)
    requires LexString(s, quote).Some?
    ensures var r := LexString(s, quote).value; Quotes(s) >= Quotes(r.0) + Quotes(r.1)
    decreases |s|
  {
    if s != "" && s[0] != '\n' && s[0] != quote {
      var n := if s[0] == '\\' && |s| > 1 && s[1] != '\n' then 2 else 1;
      var first := if s[0] == '\\' then s[1..n] else s[..1];
      var r := LexString(s[n..], quote).value;
      StringQuotes(s[n..], quote);
      QuotesSplit(s, n);
      QuotesConcat(first, r.0);
      FirstQuotes(s, n);
    }
  }

  lemma FirstQuotes(s: string, n: nat)
    requires n <= 2 && 1 <= n <= |s|
    ensures Quotes(s[1..n]) <= Quotes(s[..n])
  {
    assert s[..n][1..] == s[1..n];
  }

  /** The lexer makes no quotes: those of the text are at least those of the tokens. */
  lemma {:induction false} LexQuotes(s: string)
    requires Lex(s).Some?
    ensures Quotes(s) >= TokenQuotes(Lex(s).value) && PlainWords(Lex(s).value)
    decreases |s|
  {
    if s == "" {
    } else if s[0] == '#' {
      var n := LineEnd(s[1..], 0);
      LexQuotes(s[1..][n..]);
      QuotesSplit(s[1..], n);
    } else if s[0] == ' ' || s[0] == '\t' {
      LexQuotes(s[1..]);
    } else if s[0] == '\\' && |s| > 1 && s[1] == '\n' {
      LexQuotes(s[2..]);
      QuotesSplit(s, 2);
    } else if IsQuote(s[0]) {
      var r := LexString(s[1..], s[0]).value;
      StringQuotes(s[1..], s[0]);
      LexQuotes(r.1);
      OneToken(Word(r.0, true), Lex(r.1).value);
    } else if IsWordChar(s[0]) {
      var n := WordEnd(s, 0);
      LexQuotes(s[n..]);
      QuotesSplit(s, n);
      OneToken(WordToken(s[..n]), Lex(s[n..]).value);
    } else {
      LexQuotes(s[Operator(s).1..]);
      OperatorQuotes(s, Lex(s[Operator(s).1..]).value);
    }
  }

  lemma OperatorQuotes(s: string, ts: seq<Token>)
    requires s != "" && PlainWords(ts) && Quotes(s[Operator(s).1..]) >= TokenQuotes(ts)
    ensures var r := Operator(s);
      var all := (if r.0.Some? then [r.0.value] else []) + ts;
      Quotes(s) >= TokenQuotes(all) && PlainWords(all)
  {
    var (token, n) := Operator(s);
    QuotesSplit(s, n);
    if token.Some? {
      OperatorIsNoWord(s);
      NoWord(token.value, ts);
    } else {
      assert [] + ts == ts;
    }
  }

  lemma OperatorIsNoWord(s: string)
    requires s != "" && Operator(s).0.Some?
    ensures !Operator(s).0.value.Word?
  {
  }

  lemma NoWord(token: Token, ts: seq<Token>)
    requires !token.Word? && PlainWords(ts)
    ensures TokenQuotes([token] + ts) == TokenQuotes(ts) && PlainWords([token] + ts)
  {
    OneToken(token, ts);
    assert [token][1..] == [];
  }

  lemma OneToken(token: Token, ts: seq<Token>)
    ensures TokenQuotes([token] + ts) == TokenQuotes([token]) + TokenQuotes(ts)
    ensures PlainWords([token] + ts) <==> PlainWords([token]) && PlainWords(ts)
  {
    assert ([token] + ts)[1..] == ts && [token][1..] == [];
    assert forall i :: 0 <= i < |ts| ==> ([token] + ts)[i + 1] == ts[i];
  }

  /** The symbols that the words stand for. */
  function Symbols(t: Table, ts: seq<Token>): seq<Sym> {
    if ts == [] then []
    else (if ts[0].Word? then [t(ts[0].name, ts[0].quoted)] else []) + Symbols(t, ts[1..])
  }

  /** What has been read and what is left to read have the symbols ss. */
  predicate Keeps(t: Table, r: Parsed, ss: seq<Sym>) {
    r.Got? ==> Mentions(r.e) + Symbols(t, r.rest) == ss
  }

  lemma CompareKeeps(t: Table, ts: seq<Token>)
    requires |ts| >= 3 && ts[0].Word? && ts[1].Rel? && ts[2].Word?
    ensures Symbols(t, ts) == [t(ts[0].name, ts[0].quoted), t(ts[2].name, ts[2].quoted)] + Symbols(t, ts[3..])
  {
    var (u, v) := (ts[1..], ts[2..]);
    assert u[0] == ts[1] && u[1..] == v && v[0] == ts[2] && v[1..] == ts[3..];
    assert Symbols(t, u) == Symbols(t, v);
  }

  /** The grammar neither drops nor invents words. */
  lemma {:induction false} UnaryKeeps(t: Table, ts: seq<Token>)
    ensures Keeps(t, ParseUnary(t, ts), Symbols(t, ts))
    decreases |ts|, 0
  {
    if ts != [] {
      match ts[0]
      case Bang => UnaryKeeps(t, ts[1..]);
      case Open => OrKeeps(t, ts[1..]);
      case Word(n, q) =>
        if |ts| >= 3 && ts[1].Rel? && ts[2].Word? {
          CompareKeeps(t, ts);
        }
      case _ =>
    }
  }

  lemma {:induction false} AndTailKeeps(t: Table, e: Expr, ts: seq<Token>)
    ensures Keeps(t, AndTail(t, e, ts), Mentions(e) + Symbols(t, ts))
    decreases |ts|, 1
  {
    if ts != [] && ts[0] == AndAnd && ParseUnary(t, ts[1..]).Got? {
      UnaryKeeps(t, ts[1..]);
      var r := ParseUnary(t, ts[1..]);
      AndTailKeeps(t, Bin(And, e, r.e), r.rest);
      Associate(Mentions(e), Mentions(r.e), Symbols(t, r.rest));
    }
  }

  lemma {:induction false} AndKeeps(t: Table, ts: seq<Token>)
    ensures Keeps(t, ParseAnd(t, ts), Symbols(t, ts))
    decreases |ts|, 2
  {
    UnaryKeeps(t, ts);
    var r := ParseUnary(t, ts);
    if r.Got? {
      AndTailKeeps(t, r.e, r.rest);
    }
  }

  lemma {:induction false} OrTailKeeps(t: Table, e: Expr, ts: seq<Token>)
    ensures Keeps(t, OrTail(t, e, ts), Mentions(e) + Symbols(t, ts))
    decreases |ts|, 3
  {
    if ts != [] && ts[0] == OrOr && ParseAnd(t, ts[1..]).Got? {
      AndKeeps(t, ts[1..]);
      var r := ParseAnd(t, ts[1..]);
      OrTailKeeps(t, Bin(Or, e, r.e), r.rest);
      Associate(Mentions(e), Mentions(r.e), Symbols(t, r.rest));
    }
  }

  lemma {:induction false} OrKeeps(t: Table, ts: seq<Token>)
    ensures Keeps(t, ParseOr(t, ts), Symbols(t, ts))
    decreases |ts|, 4
  {
    AndKeeps(t, ts);
    var r := ParseAnd(t, ts);
    if r.Got? {
      OrTailKeeps(t, r.e, r.rest);
    }
  }

  function NameQuotes(ss: seq<Sym>): nat {
    if ss == [] then 0 else Quotes(ss[0].name) + NameQuotes(ss[1..])
  }

  lemma {:induction false} NameQuotesConcat(a: seq<Sym>, b: seq<Sym>)
    ensures NameQuotes(a + b) == NameQuotes(a) + NameQuotes(b)
  {
    if a == [] {
      assert a + b == b;
    } else {
      assert (a + b)[0] == a[0] && (a + b)[1..] == a[1..] + b;
      NameQuotesConcat(a[1..], b);
    }
  }

  /** The printer makes no quotes either. */
  lemma {:induction false} PrintQuotes(e: Expr, prev: Type)
    ensures Quotes(Print(e, prev)) == NameQuotes(Mentions(e)) == Quotes(Body(e))
    decreases e
  {
    assert Quotes("(") == 0 && Quotes(")") == 0 && Quotes("!") == 0;
    QuotesConcat("(", Body(e));
    QuotesConcat("(" + Body(e), ")");
    match e
    case Symbol(s) => LeftQuotes(s);
    case Compare(r, a, b) =>
      LeftQuotes(a);
      CompareQuotes(r, a, b);
    case Not(a) =>
      PrintQuotes(a, NOT);
      QuotesConcat("!", Print(a, NOT));
    case Bin(op, a, b) =>
      PrintQuotes(a, OpType(op));
      PrintQuotes(b, OpType(op));
      SeparatorQuotes(op);
      QuotesConcat(Print(a, OpType(op)), Separator(op));
      QuotesConcat(Print(a, OpType(op)) + Separator(op), Print(b, OpType(op)));
      NameQuotesConcat(Mentions(a), Mentions(b));
  }

  lemma LeftQuotes(s: Sym)
    ensures Quotes(LeftName(s)) == Quotes(s.name) == NameQuotes([s])
  {
    var text := "<choice>";
    if LeftName(s) == text {
      assert text == "<" + "choice" + ">";
      NoQuotes(text);
    }
    assert [s][1..] == [];
  }

  lemma {:induction false} NoQuotes(s: string)
    requires forall i :: 0 <= i < |s| ==> !IsQuote(s[i])
    ensures Quotes(s) == 0
  {
    if s != "" {
      NoQuotes(s[1..]);
    }
  }

  lemma CompareQuotes(r: Relation, a: Sym, b: Sym)
    requires Quotes(LeftName(a)) == Quotes(a.name)
    ensures Quotes(Body(Compare(r, a, b))) == NameQuotes([a, b])
  {
    var (x, y) := (LeftName(a), RelationText(r));
    NoQuotes(y);
    QuotesConcat(x, y);
    QuotesConcat(x + y, b.name);
    assert Body(Compare(r, a, b)) == x + y + b.name;
    assert [a, b] == [a] + [b] && [a][1..] == [] && [b][1..] == [];
    NameQuotesConcat([a], [b]);
  }

  lemma SeparatorQuotes(op: Op)
    ensures Quotes(Separator(op)) == 0
  {
    NoQuotes(Separator(op));
  }

  /** If the words have no more quotes than the symbols they stand for, none of them is quoted. */
  lemma {:induction false} NoneQuoted(t: Table, ts: seq<Token>)
    requires Lookup(t) && PlainWords(ts)
    ensures TokenQuotes(ts) >= NameQuotes(Symbols(t, ts))
    ensures TokenQuotes(ts) == NameQuotes(Symbols(t, ts)) ==>
      forall s :: s in Symbols(t, ts) ==> IsName(s.name) && t(s.name, false) == s
  {
    if ts != [] {
      var more := ts[1..];
      assert PlainWords(more) by {
        assert forall i :: 0 <= i < |more| ==> more[i] == ts[i + 1];
      }
      NoneQuoted(t, more);
      if ts[0].Word? {
        var s := t(ts[0].name, ts[0].quoted);
        assert ([s] + Symbols(t, more))[1..] == Symbols(t, more);
      } else {
        assert [] + Symbols(t, more) == Symbols(t, more);
      }
    }
  }

  lemma {:induction false} LeftAssocMentions(e: Expr)
    ensures Mentions(LeftAssoc(e)) == Mentions(e)
    decreases e, 0
  {
    match e
    case Symbol(_) =>
    case Compare(_, _, _) =>
    case Not(a) => LeftAssocMentions(a);
    case Bin(op, a, b) =>
      LeftAssocMentions(a);
      AttachMentions(op, LeftAssoc(a), b);
  }

  lemma {:induction false} AttachMentions(op: Op, acc: Expr, e: Expr)
    ensures Mentions(Attach(op, acc, e)) == Mentions(acc) + Mentions(e)
    decreases e, 1
  {
    if IsOp(op, e) {
      AttachMentions(op, acc, e.left);
      AttachMentions(op, Attach(op, acc, e.left), e.right);
      Associate(Mentions(acc), Mentions(e.left), Mentions(e.right));
    } else {
      LeftAssocMentions(e);
    }
  }

  /** Whatever is read from a printed expression with the same symbols, their names stand for them. */
  lemma ReadsOnlyNames(t: Table, e: Expr)
    requires Lookup(t) && Read(t, Print(e, NONE)).Some?
    requires Mentions(Read(t, Print(e, NONE)).value) == Mentions(e)
    ensures Readable(t, e)
  {
    var ts := Lex(Print(e, NONE)).value;
    OrKeeps(t, ts);
    var r := ParseOr(t, ts);
    assert Mentions(r.e) + [] == Mentions(r.e);
    assert Symbols(t, ts) == Mentions(e);
    PrintQuotes(e, NONE);
    LexQuotes(Print(e, NONE));
    NoneQuoted(t, ts);
  }

  /** Reading what was printed gives the expression back, re-associated and hence with the same value, if and only if
      the names of its symbols are words that stand for these symbols. */
  lemma RoundTrip(t: Table, e: Expr)
    requires Lookup(t)
    ensures Read(t, Print(e, NONE)) == Some(LeftAssoc(e)) <==> Readable(t, e)
    ensures forall env :: Eval(LeftAssoc(e), env) == Eval(e, env)
  {
    if Readable(t, e) {
      ReadsBack(t, e);
    } else if Read(t, Print(e, NONE)) == Some(LeftAssoc(e)) {
      LeftAssocMentions(e);
      ReadsOnlyNames(t, e);
    }
    forall env
      ensures Eval(LeftAssoc(e), env) == Eval(e, env)
    {
      LeftAssocKeepsValue(e, env);
    }
  }

  /** A constant loses its quotes: A='B' prints as A=B, and is read as a comparison with the symbol B, whose value
      can be another. */
  lemma QuotesLost(t: Table, a: Sym, b: Sym, c: Sym, env: Env)
    requires Lookup(t) && a.typ.String? && b.typ.String? && c.typ.Unknown? && c.isConst && c.name == b.name
    requires Readable(t, Compare(Equal, a, b))
    requires env.str(a) == c.name && StrCmp(env.str(a), env.str(b)) != 0
    ensures Print(Compare(Equal, a, c), NONE) == Print(Compare(Equal, a, b), NONE)
    ensures Read(t, Print(Compare(Equal, a, c), NONE)) == Some(Compare(Equal, a, b))
    ensures Eval(Compare(Equal, a, c), env) == YES && Eval(Compare(Equal, a, b), env) == NO
  {
    ReadsBack(t, Compare(Equal, a, b));
    SameString(c.name);
  }

  lemma SameString(s: string)
    ensures CompareStrings(s, String, s, Unknown) == 0
  {
  }

  /** Whether an operand is printed with parentheses depends on its type alone. */
  lemma PrintByBody(a: Expr, b: Expr, prev: Type)
    requires Body(a) == Body(b) && TypeOf(a) == TypeOf(b)
    ensures Print(a, prev) == Print(b, prev)
  {
  }

  lemma SameOperator(op: Op, e: Expr)
    requires IsOp(op, e)
    ensures Print(e, OpType(op)) == Body(e)
  {
  }

  lemma {:induction false} AttachPrints(op: Op, acc: Expr, e: Expr)
    ensures Body(Attach(op, acc, e)) == Print(acc, OpType(op)) + Separator(op) + Print(e, OpType(op))
    decreases e, 1
  {
    if IsOp(op, e) {
      var a := Attach(op, acc, e.left);
      AttachPrints(op, acc, e.left);
      AttachPrints(op, a, e.right);
      SameOperator(op, a);
      SameOperator(op, e);
      AssociateFive(Print(acc, OpType(op)), Separator(op), Print(e.left, OpType(op)), Separator(op),
                    Print(e.right, OpType(op)));
    } else {
      LeftAssocPrints(e);
      PrintByBody(LeftAssoc(e), e, OpType(op));
    }
  }

  /** Re-association does not show in the printed form. */
  lemma {:induction false} LeftAssocPrints(e: Expr)
    ensures Body(LeftAssoc(e)) == Body(e) && TypeOf(LeftAssoc(e)) == TypeOf(e)
    decreases e, 0
  {
    match e
    case Symbol(_) =>
    case Compare(_, _, _) =>
    case Not(a) =>
      LeftAssocPrints(a);
      PrintByBody(LeftAssoc(a), a, NOT);
    case Bin(op, a, b) =>
      LeftAssocPrints(a);
      PrintByBody(LeftAssoc(a), a, OpType(op));
      AttachPrints(op, LeftAssoc(a), b);
  }

  /** The expression with nothing but the names of its symbols. */
  function ByName(e: Expr): Expr {
    match e
    case Symbol(s) => Symbol(OnlyName(s.name, false))
    case Compare(r, a, b) => Compare(r, OnlyName(a.name, false), OnlyName(b.name, false))
    case Not(a) => Not(ByName(a))
    case Bin(op, a, b) => Bin(op, ByName(a), ByName(b))
  }

  function OnlyName(name: string, quoted: bool): Sym { Sym(0, name, Unknown, quoted) }

  lemma {:induction false} ByNamePrints(e: Expr, prev: Type)
    requires Named(e)
    ensures Print(ByName(e), prev) == Print(e, prev) && Body(ByName(e)) == Body(e)
    ensures TypeOf(ByName(e)) == TypeOf(e) && Readable(OnlyName, ByName(e))
    decreases e
  {
    NamedParts(e);
    match e
    case Symbol(s) => assert s in Mentions(e);
    case Compare(_, a, b) => assert a in Mentions(e) && b in Mentions(e);
    case Not(a) => ByNamePrints(a, NOT);
    case Bin(op, a, b) =>
      ByNamePrints(a, OpType(op));
      ByNamePrints(b, OpType(op));
  }

  /** Expressions over words print alike exactly when they have the same names up to re-association. */
  lemma PrintsAlike(e1: Expr, e2: Expr)
    requires Named(e1) && Named(e2)
    ensures Print(e1, NONE) == Print(e2, NONE) <==> LeftAssoc(ByName(e1)) == LeftAssoc(ByName(e2))
  {
    var (n1, n2) := (ByName(e1), ByName(e2));
    ByNamePrints(e1, NONE);
    ByNamePrints(e2, NONE);
    WhenParens(n1);
    WhenParens(n2);
    ReadsBack(OnlyName, n1);
    ReadsBack(OnlyName, n2);
    LeftAssocPrints(n1);
    LeftAssocPrints(n2);
  }
}
