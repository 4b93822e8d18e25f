/** What the lexer and the grammar of expressions accept. */
module ReadLaws {
  import opened Wrappers
  import opened Exprs
  import opened Printing
  import opened Sequences

  // ---------- the lexer ----------

  predicate OneLine(s: string) {
    forall i :: 0 <= i < |s| ==> s[i] != '\n'
  }

  /** Blanks and continued lines separate tokens and mean nothing; the end of a line is no part of an expression. */
  lemma BlanksSkipped(s: string)
    ensures Lex(" " + s) == Lex(s) && Lex("\t" + s) == Lex(s) && Lex("\\\n" + s) == Lex(s)
    ensures Lex("\n" + s) == Prepend([Other], Lex(s))
  {
    BlankSkipped(' ', s);
    BlankSkipped('\t', s);
    ContinuedLine("\\\n" + s, s);
    LineEnds("\n" + s, s);
  }

  lemma BlankSkipped(c: char, s: string)
    requires c == ' ' || c == '\t'
    ensures Lex([c] + s) == Lex(s)
  {
    assert ([c] + s)[1..] == s;
  }

  lemma ContinuedLine(t: string, s: string)
    requires |t| == |s| + 2 && t[0] == '\\' && t[1] == '\n' && t[2..] == s
    ensures Lex(t) == Lex(s)
  {
  }

  lemma LineEnds(t: string, s: string)
    requires |t| == |s| + 1 && t[0] == '\n' && t[1..] == s
    ensures Lex(t) == Prepend([Other], Lex(s))
  {
    assert Operator(t) == (Some(Other), 1);
  }

  lemma {:induction false} LineEndAt(text: string, rest: string, i: nat)
    requires OneLine(text) && i <= |text| && (rest == "" || rest[0] == '\n')
    ensures LineEnd(text + rest, i) == |text|
    decreases |text| - i
  {
    if i < |text| {
      assert (text + rest)[i] == text[i];
      LineEndAt(text, rest, i + 1);
    }
  }

  /** A comment reaches to the end of its line. */
  lemma CommentSkipped(text: string, rest: string)
    requires OneLine(text) && (rest == "" || rest[0] == '\n')
    ensures Lex("#" + text + rest) == Lex(rest)
  {
    var s := "#" + text + rest;
    LineEndAt(text, rest, 0);
    assert s[1..] == text + rest && (text + rest)[|text|..] == rest;
  }

  predicate WordCharacters(w: string) {
    w != "" && forall i :: 0 <= i < |w| ==>
      'A' <= w[i] <= 'Z' || 'a' <= w[i] <= 'z' || '0' <= w[i] <= '9' || w[i] in {'_', '-', '/', '.'}
  }

  /** A word reaches as far as its characters do. */
  lemma WordRead(w: string, rest: string)
    requires WordCharacters(w) && w !in KEYWORDS
    requires rest == "" || !(WordCharacters([rest[0]]) || rest[0] == '$')
    ensures Lex(w + rest) == Prepend([Word(w, false)], Lex(rest))
  {
    var s := w + rest;
    assert s[0] == w[0];
    if rest != "" {
      assert [rest[0]][0] == rest[0];
      assert !IsWordChar(rest[0]);
    }
    WordEndAt(w, rest, 0);
    assert s[..|w|] == w && s[|w|..] == rest;
  }

  lemma {:induction false} WordEndAt(w: string, rest: string, i: nat)
    requires (forall j :: 0 <= j < |w| ==> IsWordChar(w[j])) && (rest == "" || !IsWordChar(rest[0])) && i <= |w|
    ensures WordEnd(w + rest, i) == |w|
    decreases |w| - i
  {
    if i < |w| {
      assert (w + rest)[i] == w[i];
      WordEndAt(w, rest, i + 1);
    }
  }

  /** A text with a backslash in front of every quote of the kind and every backslash. */
  function InQuotes(text: string, quote: char): string {
    if text == "" then ""
    else Protected(text[0], quote) + InQuotes(text[1..], quote)
  }

  /** A character of the text, as it stands in quotes. */
  function Protected(c: char, quote: char): string {
    if c == quote || c == '\\' then ['\\', c] else [c]
  }

  /** What is left behind a string: its closing quote is taken, the end of a line is not. */
  function Behind(rest: string): string {
    if rest == "" || rest[0] == '\n' then rest else rest[1..]
  }

  predicate EndsString(rest: string, quote: char) {
    rest == "" || rest[0] == quote || rest[0] == '\n'
  }

  lemma StringEnds(rest: string, quote: char)
    requires EndsString(rest, quote)
    ensures LexString(rest, quote) == Some(("", Behind(rest)))
  {
  }

  lemma {:induction false} StringReads(text: string, quote: char, rest: string)
    requires OneLine(text) && '$' !in text && EndsString(rest, quote) && quote != '\\'
    ensures LexString(InQuotes(text, quote) + rest, quote) == Some((text, Behind(rest)))
    decreases |text|
  {
    if text == "" {
      StringEnds(rest, quote);
      assert InQuotes(text, quote) + rest == rest;
    } else {
      var (c, tail) := (text[0], text[1..]);
      var more := InQuotes(tail, quote) + rest;
      StringReads(tail, quote, rest);
      var s := Protected(c, quote) + more;
      StringStep(c, more, quote, s);
      InQuotesStep(text, quote, rest);
      assert text == [c] + tail;
    }
  }

  lemma InQuotesStep(text: string, quote: char, rest: string)
    requires text != ""
    ensures InQuotes(text, quote) + rest == Protected(text[0], quote) + (InQuotes(text[1..], quote) + rest)
  {
    Associate(Protected(text[0], quote), InQuotes(text[1..], quote), rest);
  }

  lemma StringStep(c: char, more: string, quote: char, s: string)
    requires LexString(more, quote).Some? && c != '\n' && c != '$' && quote != '\\' && s == Protected(c, quote) + more
    ensures LexString(s, quote) == Some(([c] + LexString(more, quote).value.0, LexString(more, quote).value.1))
  {
    if c == quote || c == '\\' {
      assert s[0] == '\\' && s[1] == c && s[2..] == more && s[1..2] == [c];
    } else {
      assert s[0] == c && s[1..] == more && s[..1] == [c];
    }
  }

  lemma Opened(quote: char, t: string, rest: string)
    ensures ([quote] + t + rest)[0] == quote && ([quote] + t + rest)[1..] == t + rest
  {
  }

  /** A string in quotes of either kind is its text without escapes; the other kind of quote stands for itself. */
  lemma StringRead(text: string, quote: char, rest: string)
    requires OneLine(text) && '$' !in text && (quote == '"' || quote == '\'')
    ensures Lex([quote] + InQuotes(text, quote) + [quote] + rest) == Prepend([Word(text, true)], Lex(rest))
  {
    var t := InQuotes(text, quote);
    var s := [quote] + t + [quote] + rest;
    StringReads(text, quote, [quote] + rest);
    assert Behind([quote] + rest) == rest;
    Opened(quote, t, [quote] + rest);
    Associate([quote] + t, [quote], rest);
    QuotedLexes(s, text, rest);
  }

  /** A string that is not closed ends with its line. */
  lemma StringCutOff(text: string, quote: char, rest: string)
    requires OneLine(text) && '$' !in text && (quote == '"' || quote == '\'') && (rest == "" || rest[0] == '\n')
    ensures Lex([quote] + InQuotes(text, quote) + rest) == Prepend([Word(text, true)], Lex(rest))
  {
    var t := InQuotes(text, quote);
    var s := [quote] + t + rest;
    StringReads(text, quote, rest);
    Opened(quote, t, rest);
    QuotedLexes(s, text, rest);
  }

  lemma QuotedLexes(s: string, text: string, rest: string)
    requires s != "" && IsQuote(s[0]) && LexString(s[1..], s[0]) == Some((text, rest))
    ensures Lex(s) == Prepend([Word(text, true)], Lex(rest))
  {
  }

  /** The operators. */
  lemma OperatorsRead(s: string)
    ensures Lex("&&" + s) == Prepend([AndAnd], Lex(s)) && Lex("||" + s) == Prepend([OrOr], Lex(s))
    ensures Lex("!=" + s) == Prepend([Rel(Unequal)], Lex(s)) && Lex("=" + s) == Prepend([Rel(Equal)], Lex(s))
    ensures Lex("<=" + s) == Prepend([Rel(Leq)], Lex(s)) && Lex(">=" + s) == Prepend([Rel(Geq)], Lex(s))
    ensures Lex("(" + s) == Prepend([Open], Lex(s)) && Lex(")" + s) == Prepend([Close], Lex(s))
  {
    PairReads('&', '&', AndAnd, s);
    PairReads('|', '|', OrOr, s);
    PairReads('!', '=', Rel(Unequal), s);
    PairReads('<', '=', Rel(Leq), s);
    PairReads('>', '=', Rel(Geq), s);
    CharReads('=', Rel(Equal), s);
    CharReads('(', Open, s);
    CharReads(')', Close, s);
  }

  /** Those that could go on as a longer one. */
  lemma ShortOperatorsRead(s: string)
    requires s == "" || s[0] != '='
    ensures Lex("!" + s) == Prepend([Bang], Lex(s))
    ensures Lex("<" + s) == Prepend([Rel(Lth)], Lex(s)) && Lex(">" + s) == Prepend([Rel(Gth)], Lex(s))
  {
    ShortReads('!', Bang, s);
    ShortReads('<', Rel(Lth), s);
    ShortReads('>', Rel(Gth), s);
  }

  lemma ShortReads(c: char, token: Token, s: string)
    requires (c, token) in {('!', Bang), ('<', Rel(Lth)), ('>', Rel(Gth))} && (s == "" || s[0] != '=')
    ensures Lex([c] + s) == Prepend([token], Lex(s))
  {
    assert s != "" ==> ([c] + s)[1] == s[0];
    CharReads(c, token, s);
  }

  lemma PairReads(c: char, d: char, token: Token, s: string)
    requires c in {'&', '|', '!', '<', '>'} && Operator([c, d] + s) == (Some(token), 2)
    ensures Lex([c, d] + s) == Prepend([token], Lex(s))
  {
    assert ([c, d] + s)[2..] == s;
  }

  lemma CharReads(c: char, token: Token, s: string)
    requires c in {'=', '(', ')', '!', '<', '>'} && Operator([c] + s) == (Some(token), 1)
    ensures Lex([c] + s) == Prepend([token], Lex(s))
  {
    assert ([c] + s)[1..] == s;
  }

  // ---------- the printer ----------

  /** Names are printed as they are, with "<choice>" for a symbol without one that is no constant, and relations between
      them without spaces. */
  lemma PrintedNames(s: Sym, t: Sym, r: Relation)
    ensures Print(Symbol(s), NONE) == if s.name == "" && !s.isConst then "<choice>" else s.name
    ensures var sign := match r case Equal => "=" case Unequal => "!=" case Lth => "<" case Leq => "<="
                                case Gth => ">" case Geq => ">=";
      Print(Compare(r, s, t), NONE) == Print(Symbol(s), NONE) + sign + t.name
  {
  }

  /** Operators are printed with a space on either side, ! without, and parentheses where the operator around asks. */
  lemma PrintedOperators(e: Expr, a: Expr, b: Expr, prev: Type)
    ensures Print(Not(a), NONE) == "!" + Print(a, NOT)
    ensures Print(Bin(And, a, b), NONE) == Print(a, AND) + " && " + Print(b, AND)
    ensures Print(Bin(Or, a, b), NONE) == Print(a, OR) + " || " + Print(b, OR)
    ensures Print(e, prev) in {Print(e, NONE), "(" + Print(e, NONE) + ")"}
  {
  }

  // ---------- the grammar ----------

  predicate IsSymbol(t: Table, e: Expr, ts: seq<Token>) {
    e.Symbol? && |ts| == 1 && ts[0].Word? && e.sym == t(ts[0].name, ts[0].quoted)
  }

  predicate IsComparison(t: Table, e: Expr, ts: seq<Token>) {
    && e.Compare? && |ts| == 3 && ts[0].Word? && ts[1] == Rel(e.rel) && ts[2].Word?
    && e.lsym == t(ts[0].name, ts[0].quoted) && e.rsym == t(ts[2].name, ts[2].quoted)
  }

  /** A symbol, a comparison, a negation, or anything in parentheses. */
  ghost predicate Unary(t: Table, e: Expr, ts: seq<Token>)
    decreases |ts|, 0
  {
    || IsSymbol(t, e, ts)
    || IsComparison(t, e, ts)
    || (e.Not? && ts != [] && ts[0] == Bang && Unary(t, e.arg, ts[1..]))
    || (|ts| >= 2 && ts[0] == Open && ts[|ts| - 1] == Close && Disjunction(t, e, ts[1..|ts| - 1]))
  }

  ghost predicate AndAt(t: Table, e: Expr, ts: seq<Token>, k: nat)
    decreases |ts|, 1
  {
    && IsOp(And, e) && k < |ts| && ts[k] == AndAnd
    && Conjunction(t, e.left, ts[..k]) && Unary(t, e.right, ts[k + 1..])
  }

  /** Such operands joined by &&, grouped to the left. */
  ghost predicate Conjunction(t: Table, e: Expr, ts: seq<Token>)
    decreases |ts|, 2
  {
    Unary(t, e, ts) || exists k: nat :: AndAt(t, e, ts, k)
  }

  ghost predicate OrAt(t: Table, e: Expr, ts: seq<Token>, k: nat)
    decreases |ts|, 3
  {
    && IsOp(Or, e) && k < |ts| && ts[k] == OrOr
    && Disjunction(t, e.left, ts[..k]) && Conjunction(t, e.right, ts[k + 1..])
  }

  /** Conjunctions joined by ||, grouped to the left. */
  ghost predicate Disjunction(t: Table, e: Expr, ts: seq<Token>)
    decreases |ts|, 4
  {
    Conjunction(t, e, ts) || exists k: nat :: OrAt(t, e, ts, k)
  }

  /** What follows is no relation. */
  predicate NoRelation(k: seq<Token>) {
    k == [] || !k[0].Rel?
  }

  lemma SymbolAccepted(t: Table, e: Expr, ts: seq<Token>, k: seq<Token>)
    requires IsSymbol(t, e, ts) && NoRelation(k)
    ensures ParseUnary(t, ts + k) == Got(e, k)
  {
    var all := ts + k;
    assert all[0] == ts[0] && all[1..] == k && (k != [] ==> all[1] == k[0]);
  }

  lemma ComparisonAccepted(t: Table, e: Expr, ts: seq<Token>, k: seq<Token>)
    requires IsComparison(t, e, ts)
    ensures ParseUnary(t, ts + k) == Got(e, k)
  {
    var all := ts + k;
    assert all[0] == ts[0] && all[1] == ts[1] && all[2] == ts[2] && all[3..] == k;
  }

  lemma NegationAccepted(t: Table, all: seq<Token>, more: seq<Token>, e: Expr, k: seq<Token>)
    requires all != [] && all[0] == Bang && all[1..] == more && ParseUnary(t, more) == Got(e, k)
    ensures ParseUnary(t, all) == Got(Not(e), k)
  {
  }

  lemma ParensAccepted(t: Table, all: seq<Token>, more: seq<Token>, e: Expr, k: seq<Token>)
    requires all != [] && all[0] == Open && all[1..] == more && ParseOr(t, more) == Got(e, [Close] + k)
    ensures ParseUnary(t, all) == Got(e, k)
  {
    assert ([Close] + k)[0] == Close && ([Close] + k)[1..] == k;
  }

  lemma {:induction false} UnaryAccepted(t: Table, e: Expr, ts: seq<Token>, k: seq<Token>)
    requires Unary(t, e, ts) && NoRelation(k)
    ensures ParseUnary(t, ts + k) == Got(e, k)
    decreases |ts|, 0
  {
    if IsSymbol(t, e, ts) {
      SymbolAccepted(t, e, ts, k);
    } else if IsComparison(t, e, ts) {
      ComparisonAccepted(t, e, ts, k);
    } else if ts[0] == Bang {
      UnaryAccepted(t, e.arg, ts[1..], k);
      assert (ts + k)[1..] == ts[1..] + k;
      NegationAccepted(t, ts + k, ts[1..] + k, e.arg, k);
    } else {
      var inner := ts[1..|ts| - 1];
      DisjunctionAccepted(t, e, inner, [Close] + k);
      assert (ts + k)[1..] == inner + ([Close] + k);
      ParensAccepted(t, ts + k, inner + ([Close] + k), e, k);
    }
  }

  lemma {:induction false} ConjunctionAccepted(t: Table, e: Expr, ts: seq<Token>, k: seq<Token>)
    requires Conjunction(t, e, ts) && NoRelation(k)
    ensures ParseAnd(t, ts + k) == AndTail(t, e, k)
    decreases |ts|, 1
  {
    if Unary(t, e, ts) {
      UnaryAccepted(t, e, ts, k);
    } else {
      var n: nat :| AndAt(t, e, ts, n);
      var right := ts[n + 1..];
      var more := [AndAnd] + (right + k);
      AroundOperator(ts, n, k);
      ConjunctionAccepted(t, e.left, ts[..n], more);
      UnaryAccepted(t, e.right, right, k);
      AndTailStep(t, e.left, more, right + k, e.right, k);
    }
  }

  lemma AroundOperator(ts: seq<Token>, n: nat, k: seq<Token>)
    requires n < |ts|
    ensures ts + k == ts[..n] + ([ts[n]] + (ts[n + 1..] + k)) && ([ts[n]] + (ts[n + 1..] + k))[1..] == ts[n + 1..] + k
  {
  }

  lemma AndTailStep(t: Table, acc: Expr, ts: seq<Token>, more: seq<Token>, e: Expr, k: seq<Token>)
    requires ts != [] && ts[0] == AndAnd && ts[1..] == more && ParseUnary(t, more) == Got(e, k)
    ensures AndTail(t, acc, ts) == AndTail(t, Bin(And, acc, e), k)
  {
  }

  lemma OrTailStep(t: Table, acc: Expr, ts: seq<Token>, more: seq<Token>, e: Expr, k: seq<Token>)
    requires ts != [] && ts[0] == OrOr && ts[1..] == more && ParseAnd(t, more) == Got(e, k)
    ensures OrTail(t, acc, ts) == OrTail(t, Bin(Or, acc, e), k)
  {
  }

  lemma {:induction false} DisjunctionAccepted(t: Table, e: Expr, ts: seq<Token>, k: seq<Token>)
    requires Disjunction(t, e, ts) && NoRelation(k) && (k == [] || k[0] != AndAnd)
    ensures ParseOr(t, ts + k) == OrTail(t, e, k)
    decreases |ts|, 2
  {
    if Conjunction(t, e, ts) {
      ConjunctionAccepted(t, e, ts, k);
    } else {
      var n: nat :| OrAt(t, e, ts, n);
      var right := ts[n + 1..];
      var more := [OrOr] + (right + k);
      AroundOperator(ts, n, k);
      DisjunctionAccepted(t, e.left, ts[..n], more);
      ConjunctionAccepted(t, e.right, right, k);
      OrTailStep(t, e.left, more, right + k, e.right, k);
    }
  }

  /** The tokens up to the rest that was left. */
  function Used(ts: seq<Token>, rest: seq<Token>): seq<Token> {
    if |rest| <= |ts| then ts[..|ts| - |rest|] else ts
  }

  predicate Leaves(ts: seq<Token>, rest: seq<Token>) {
    |rest| <= |ts| && rest == ts[|ts| - |rest|..]
  }

  lemma UsedTwice(ts: seq<Token>, rest: seq<Token>, last: seq<Token>)
    requires Leaves(ts, rest) && Leaves(rest, last)
    ensures Leaves(ts, last) && Used(ts, last) == Used(ts, rest) + Used(rest, last)
  {
  }

  lemma UsedBehind(ts: seq<Token>, rest: seq<Token>)
    requires ts != [] && Leaves(ts[1..], rest)
    ensures Leaves(ts, rest) && Used(ts, rest) == [ts[0]] + Used(ts[1..], rest)
  {
  }

  lemma {:induction false} UnarySound(t: Table, ts: seq<Token>)
    requires ParseUnary(t, ts).Got?
    ensures var r := ParseUnary(t, ts); Leaves(ts, r.rest) && Unary(t, r.e, Used(ts, r.rest))
    decreases |ts|, 0
  {
    var r := ParseUnary(t, ts);
    match ts[0]
    case Bang =>
      UnarySound(t, ts[1..]);
      UsedBehind(ts, r.rest);
      assert ([Bang] + Used(ts[1..], r.rest))[1..] == Used(ts[1..], r.rest);
    case Open =>
      OrSound(t, ts[1..]);
      var inner := ParseOr(t, ts[1..]);
      InParens(ts, inner.rest);
    case Word(_, _) =>
      WordSound(t, ts);
  }

  lemma InParens(ts: seq<Token>, rest: seq<Token>)
    requires ts != [] && ts[0] == Open && Leaves(ts[1..], rest) && rest != [] && rest[0] == Close
    ensures Leaves(ts, rest[1..])
    ensures var u := Used(ts, rest[1..]);
      |u| >= 2 && u[0] == Open && u[|u| - 1] == Close && u[1..|u| - 1] == Used(ts[1..], rest)
  {
  }

  lemma WordSound(t: Table, ts: seq<Token>)
    requires ts != [] && ts[0].Word? && ParseUnary(t, ts).Got?
    ensures var r := ParseUnary(t, ts); Leaves(ts, r.rest) && Unary(t, r.e, Used(ts, r.rest))
  {
    var u := Used(ts, ParseUnary(t, ts).rest);
    assert forall i :: 0 <= i < |u| ==> u[i] == ts[i];
  }

  lemma Joins(before: seq<Token>, token: Token, u: seq<Token>)
    ensures var all := before + ([token] + u);
      all[..|before|] == before && all[|before|] == token && all[|before| + 1..] == u
  {
  }

  lemma AndJoins(t: Table, acc: Expr, before: seq<Token>, e: Expr, u: seq<Token>)
    requires Conjunction(t, acc, before) && Unary(t, e, u)
    ensures Conjunction(t, Bin(And, acc, e), before + ([AndAnd] + u))
  {
    Joins(before, AndAnd, u);
    assert AndAt(t, Bin(And, acc, e), before + ([AndAnd] + u), |before|);
  }

  lemma OrJoins(t: Table, acc: Expr, before: seq<Token>, e: Expr, u: seq<Token>)
    requires Disjunction(t, acc, before) && Conjunction(t, e, u)
    ensures Disjunction(t, Bin(Or, acc, e), before + ([OrOr] + u))
  {
    Joins(before, OrOr, u);
    assert OrAt(t, Bin(Or, acc, e), before + ([OrOr] + u), |before|);
  }

  /** A prefix with two more pieces. */
  lemma Grown(before: seq<Token>, ts: seq<Token>, rest: seq<Token>, last: seq<Token>)
    requires ts != [] && Leaves(ts[1..], rest) && Leaves(rest, last)
    ensures Leaves(ts, last)
    ensures before + ([ts[0]] + Used(ts[1..], rest)) + Used(rest, last) == before + Used(ts, last)
  {
    UsedBehind(ts, rest);
    UsedTwice(ts, rest, last);
  }

  lemma {:induction false} AndTailSound(t: Table, acc: Expr, before: seq<Token>, ts: seq<Token>)
    requires Conjunction(t, acc, before) && AndTail(t, acc, ts).Got?
    ensures var r := AndTail(t, acc, ts); Leaves(ts, r.rest) && Conjunction(t, r.e, before + Used(ts, r.rest))
    decreases |ts|, 1
  {
    if ts == [] || ts[0] != AndAnd {
      assert before + Used(ts, ts) == before;
    } else {
      UnarySound(t, ts[1..]);
      var r := ParseUnary(t, ts[1..]);
      var (u, next) := (Used(ts[1..], r.rest), Bin(And, acc, r.e));
      AndJoins(t, acc, before, r.e, u);
      AndTailSound(t, next, before + ([AndAnd] + u), r.rest);
      Grown(before, ts, r.rest, AndTail(t, next, r.rest).rest);
    }
  }

  lemma {:induction false} AndSound(t: Table, ts: seq<Token>)
    requires ParseAnd(t, ts).Got?
    ensures var r := ParseAnd(t, ts); Leaves(ts, r.rest) && Conjunction(t, r.e, Used(ts, r.rest))
    decreases |ts|, 2
  {
    UnarySound(t, ts);
    var r := ParseUnary(t, ts);
    AndTailSound(t, r.e, Used(ts, r.rest), r.rest);
    UsedTwice(ts, r.rest, AndTail(t, r.e, r.rest).rest);
  }

  lemma {:induction false} OrTailSound(t: Table, acc: Expr, before: seq<Token>, ts: seq<Token>)
    requires Disjunction(t, acc, before) && OrTail(t, acc, ts).Got?
    ensures var r := OrTail(t, acc, ts); Leaves(ts, r.rest) && Disjunction(t, r.e, before + Used(ts, r.rest))
    decreases |ts|, 3
  {
    if ts == [] || ts[0] != OrOr {
      assert before + Used(ts, ts) == before;
    } else {
      AndSound(t, ts[1..]);
      var r := ParseAnd(t, ts[1..]);
      var (u, next) := (Used(ts[1..], r.rest), Bin(Or, acc, r.e));
      OrJoins(t, acc, before, r.e, u);
      OrTailSound(t, next, before + ([OrOr] + u), r.rest);
      Grown(before, ts, r.rest, OrTail(t, next, r.rest).rest);
    }
  }

  lemma {:induction false} OrSound(t: Table, ts: seq<Token>)
    requires ParseOr(t, ts).Got?
    ensures var r := ParseOr(t, ts); Leaves(ts, r.rest) && Disjunction(t, r.e, Used(ts, r.rest))
    decreases |ts|, 4
  {
    AndSound(t, ts);
    var r := ParseAnd(t, ts);
    OrTailSound(t, r.e, Used(ts, r.rest), r.rest);
    UsedTwice(ts, r.rest, OrTail(t, r.e, r.rest).rest);
  }

  /** The parser accepts exactly the disjunctions, and reads each as the expression that it is. */
  lemma ParseExactly(t: Table, ts: seq<Token>, e: Expr)
    ensures Parse(t, ts) == Some(e) <==> Disjunction(t, e, ts)
  {
    if Parse(t, ts) == Some(e) {
      OrSound(t, ts);
      assert Used(ts, []) == ts;
    }
    if Disjunction(t, e, ts) {
      DisjunctionAccepted(t, e, ts, []);
      assert ts + [] == ts;
    }
  }
}
