/** Values in .config files: quoting, printing and reading back (confdata.c). */
module ConfText {
  import opened Wrappers
  import opened Exprs
  import opened Sequences

  const NUL: char := 0 as char

  predicate Special(c: char) { c == '"' || c == '\\' }

  // ---------- quoting ----------

  function Escaped(s: string): string {
    if s == "" then "" else (if Special(s[0]) then ['\\', s[0]] else [s[0]]) + Escaped(s[1..])
  }

  /** What a string value looks like in a file. */
  function Quoted(s: string): string {
    "\"" + Escaped(s) + "\""
  }

  function Specials(s: string): nat {
    if s == "" then 0 else (if Special(s[0]) then 1 else 0) + Specials(s[1..])
  }

  lemma {:induction false} EscapedLength(s: string)
    ensures |Escaped(s)| == |s| + Specials(s)
  {
    if s != "" {
      EscapedLength(s[1..]);
    }
  }

  lemma {:induction false} EscapedAppend(a: string, b: string)
    ensures Escaped(a + b) == Escaped(a) + Escaped(b) && Specials(a + b) == Specials(a) + Specials(b)
  {
    if a == "" {
      assert a + b == b;
    } else {
      assert (a + b)[1..] == a[1..] + b;
      EscapedAppend(a[1..], b);
    }
  }

  /** The text up to the closing quote, without the escapes. */
  function Unescaped(t: string): Option<string>
    decreases |t|
  {
    if t == "" || t == "\\" then None
    else if t[0] == '"' then Some("")
    else
      var (c, rest) := if t[0] == '\\' then (t[1], t[2..]) else (t[0], t[1..]);
      match Unescaped(rest)
      case None => None
      case Some(s) => Some([c] + s)
  }

  lemma {:induction false} UnescapeEscaped(s: string, tail: string)
    ensures Unescaped(Escaped(s) + "\"" + tail) == Some(s)
  {
    var t := Escaped(s) + "\"" + tail;
    if s == "" {
      assert t[0] == '"';
    } else {
      UnescapeEscaped(s[1..], tail);
      var rest := Escaped(s[1..]) + "\"" + tail;
      if Special(s[0]) {
        assert t == ['\\', s[0]] + rest;
        assert t[2..] == rest;
      } else {
        assert t == [s[0]] + rest;
        assert t[1..] == rest;
      }
      assert [s[0]] + s[1..] == s;
    }
  }

  /** Without its closing quote, quoted text is not accepted. */
  lemma {:induction false} UnterminatedIsRefused(s: string)
    ensures Unescaped(Escaped(s)).None?
  {
    if s != "" {
      UnterminatedIsRefused(s[1..]);
      var t := Escaped(s);
      if Special(s[0]) {
        assert t == ['\\', s[0]] + Escaped(s[1..]);
        assert t[2..] == Escaped(s[1..]);
      } else {
        assert t == [s[0]] + Escaped(s[1..]);
        assert t[1..] == Escaped(s[1..]);
      }
    }
  }

  /** strcspn: how far it is to the next character that needs escaping. */
  function Span(s: string): (n: nat)
    ensures n <= |s| && (n < |s| ==> Special(s[n]))
    ensures forall i :: 0 <= i < n ==> !Special(s[i])
  {
    if s == "" || Special(s[0]) then 0 else 1 + Span(s[1..])
  }

  lemma {:induction false} PlainEscapes(s: string)
    requires forall i :: 0 <= i < |s| ==> !Special(s[i])
    ensures Escaped(s) == s && Specials(s) == 0
  {
    if s != "" {
      PlainEscapes(s[1..]);
      assert [s[0]] + s[1..] == s;
    }
  }

  lemma EscapedJoin(s: string, p: nat, q: nat)
    requires p <= q <= |s|
    ensures Escaped(s[..q]) == Escaped(s[..p]) + Escaped(s[p..q])
    ensures Specials(s[..q]) == Specials(s[..p]) + Specials(s[p..q])
  {
    var (a, b) := (s[..p], s[p..q]);
    EscapedAppend(a, b);
    assert s[..q] == a + b;
  }

  lemma SpanIsPlain(s: string, p: nat, q: nat)
    requires p <= |s| && q == p + Span(s[p..])
    ensures forall i :: 0 <= i < q - p ==> !Special(s[p..q][i])
  {
    var rest := s[p..];
    forall i | 0 <= i < q - p
      ensures !Special(s[p..q][i])
    {
      assert rest[i] == s[p + i];
    }
  }

  /** The part up to the next special character. */
  lemma SpanStep(s: string, p: nat)
    requires p <= |s|
    ensures var q := p + Span(s[p..]);
      Escaped(s[..q]) == Escaped(s[..p]) + s[p..q] && Specials(s[..q]) == Specials(s[..p])
  {
    var q := p + Span(s[p..]);
    SpanIsPlain(s, p, q);
    PlainEscapes(s[p..q]);
    EscapedJoin(s, p, q);
  }

  lemma EscapeStep(s: string, p: nat)
    requires p < |s| && Special(s[p])
    ensures Escaped(s[..p + 1]) == Escaped(s[..p]) + ['\\', s[p]] && Specials(s[..p + 1]) == Specials(s[..p]) + 1
  {
    var c := [s[p]];
    assert c[1..] == "";
    assert Escaped(c) == ['\\', s[p]] + "" == ['\\', s[p]];
    EscapedAppend(s[..p], c);
    assert s[..p + 1] == s[..p] + c;
  }

  lemma EscapedPrefix(s: string, p: nat)
    requires p <= |s|
    ensures |Escaped(s[..p])| <= |Escaped(s)|
  {
    EscapedAppend(s[..p], s[p..]);
    assert s == s[..p] + s[p..];
  }

  /** strcat and strncat: out holds text that ends at position w. */
  method Append(out: array<char>, w: nat, src: string) returns (w': nat)
    requires w + |src| < out.Length && out[w] == NUL
    modifies out
    ensures w' == w + |src| && out[..w'] == old(out[..w]) + src && out[w'] == NUL
  {
    for i := 0 to |src|
      invariant out[..w + i] == old(out[..w]) + src[..i]
    {
      out[w + i] := src[i];
      assert out[..w + i + 1] == out[..w + i] + [src[i]];
      assert src[..i + 1] == src[..i] + [src[i]];
    }
    w' := w + |src|;
    out[w'] := NUL;
    assert src[..|src|] == src;
  }

  /** escape_string_value. The buffer is exactly as long as what is written into it, terminator included. */
  method EscapeStringValue(s: string) returns (out: array<char>)
    ensures fresh(out) && out[..] == Quoted(s) + [NUL]
  {
    var len := |s| + 2 + 1;
    var p := 0;
    assert s[..0] == "";
    while true
      invariant p <= |s| && len == |s| + 3 + Specials(s[..p])
      decreases |s| - p
    {
      SpanStep(s, p);
      p := p + Span(s[p..]);
      if p == |s| {
        break;
      }
      assert Special(s[p]);
      EscapeStep(s, p);
      len := len + 1;
      p := p + 1;
    }
    assert s[..p] == s;
    EscapedLength(s);
    out := new char[len];
    out[0] := NUL;
    FillQuoted(s, out);
    assert out[..] == out[..len - 1] + [out[len - 1]];
  }

  /** The buffer holds the opening quote and the first p characters, escaped, up to position w. */
  ghost predicate Filled(out: array<char>, w: nat, s: string, p: nat)
    reads out
  {
    out.Length == |Escaped(s)| + 3 && w < out.Length && out[w] == NUL && p <= |s| && out[..w] == "\"" + Escaped(s[..p])
  }

  method AppendSpan(s: string, out: array<char>, w: nat, p: nat) returns (w': nat, p': nat)
    requires Filled(out, w, s, p)
    modifies out
    ensures Filled(out, w', s, p') && p <= p' && (p' < |s| ==> Special(s[p']))
  {
    p' := p + Span(s[p..]);
    SpanStep(s, p);
    EscapedPrefix(s, p');
    assert p' < |s| ==> s[p..][p' - p] == s[p'];
    w' := Append(out, w, s[p..p']);
    assert "\"" + Escaped(s[..p]) + s[p..p'] == "\"" + Escaped(s[..p']);
  }

  method AppendSpecial(s: string, out: array<char>, w: nat, p: nat) returns (w': nat)
    requires Filled(out, w, s, p) && p < |s| && Special(s[p])
    modifies out
    ensures Filled(out, w', s, p + 1)
  {
    EscapeStep(s, p);
    EscapedPrefix(s, p + 1);
    w' := Append(out, w, "\\");
    w' := Append(out, w', [s[p]]);
    assert "\"" + Escaped(s[..p]) + "\\" + [s[p]] == "\"" + (Escaped(s[..p]) + ['\\', s[p]]);
  }

  /** The second loop of escape_string_value. */
  method FillQuoted(s: string, out: array<char>)
    requires out.Length == |Quoted(s)| + 1 && out[0] == NUL
    modifies out
    ensures out[..out.Length - 1] == Quoted(s) && out[out.Length - 1] == NUL
  {
    var w: nat, p: nat := 0, 0;
    w := Append(out, w, "\"");
    assert s[..0] == "" && out[..w] == "\"" + "";
    while true
      invariant Filled(out, w, s, p)
      decreases |s| - p
    {
      w, p := AppendSpan(s, out, w, p);
      if p == |s| {
        break;
      }
      w := AppendSpecial(s, out, w, p);
      p := p + 1;
    }
    assert s[..p] == s;
    w := Append(out, w, "\"");
  }

  // ---------- unescaping in place ----------

  function Prepend(done: string, r: Option<string>): Option<string> {
    match r
    case None => None
    case Some(s) => Some(done + s)
  }

  lemma PrependTwice(a: string, b: string, r: Option<string>)
    ensures Prepend(a, Prepend(b, r)) == Prepend(a + b, r)
  {
    if r.Some? {
      assert a + (b + r.value) == a + b + r.value;
    }
  }

  lemma {:induction false} UnescapePlain(x: string, y: string)
    requires forall i :: 0 <= i < |x| ==> !Special(x[i])
    ensures Unescaped(x + y) == Prepend(x, Unescaped(y))
  {
    if x == "" {
      assert x + y == y;
      assert Unescaped(y).Some? ==> "" + Unescaped(y).value == Unescaped(y).value;
    } else {
      UnescapePlain(x[1..], y);
      assert x + y == [x[0]] + (x[1..] + y);
      UnescapeOne(x[0], x[1..] + y);
      PrependTwice([x[0]], x[1..], Unescaped(y));
      assert [x[0]] + x[1..] == x;
    }
  }

  lemma UnescapeOne(c: char, y: string)
    requires !Special(c)
    ensures Unescaped([c] + y) == Prepend([c], Unescaped(y))
  {
    assert ([c] + y)[1..] == y;
  }

  lemma UnescapeBackslash(c: char, y: string)
    ensures Unescaped(['\\', c] + y) == Prepend([c], Unescaped(y))
  {
    assert (['\\', c] + y)[2..] == y;
  }

  /** There is a C string at p, and its terminator at e. */
  ghost predicate Text(a: array<char>, p: nat, e: nat)
    reads a
  {
    p <= e < a.Length && a[e] == NUL && forall i :: p <= i < e ==> a[i] != NUL
  }

  /** strpbrk for a quote or a backslash; q is where the string ends when there is none. */
  method Strpbrk(a: array<char>, p: nat, ghost e: nat) returns (found: bool, q: nat)
    requires Text(a, p, e)
    ensures p <= q <= e && (found <==> q < e) && (forall i :: p <= i < q ==> !Special(a[i]))
    ensures found ==> Special(a[q])
  {
    q := p;
    while a[q] != NUL && !Special(a[q])
      invariant p <= q <= e && forall i :: p <= i < q ==> !Special(a[i])
      decreases e - q
    {
      q := q + 1;
    }
    found := a[q] != NUL;
  }

  /** memmove of n characters by one place to the left. */
  method MoveLeft(a: array<char>, to: nat, n: nat)
    requires to + 1 + n <= a.Length
    modifies a
    ensures a[..to] == old(a[..to]) && a[to..to + n] == old(a[to + 1..to + 1 + n]) && a[to + n..] == old(a[to + n..])
  {
    for i := 0 to n
      invariant a[..to] == old(a[..to]) && a[to..to + i] == old(a[to + 1..to + 1 + i])
      invariant a[to + i..] == old(a[to + i..])
    {
      a[to + i] := a[to + i + 1];
      assert a[to..to + i + 1] == a[to..to + i] + [a[to + i]];
      assert a[to + i + 1..] == old(a[to + i..])[1..] == old(a[to + i + 1..]);
    }
  }

  method Strlen(a: array<char>, p: nat, ghost e: nat) returns (n: nat)
    requires Text(a, p, e)
    ensures p + n == e
  {
    n := 0;
    while a[p + n] != NUL
      invariant p + n <= e
      decreases e - p - n
    {
      n := n + 1;
    }
  }

  /** The buffer holds the unescaped text so far, then what is still to be read. */
  ghost predicate Halfway(a: array<char>, p: nat, p2: nat, e: nat, text: string)
    reads a
  {
    p <= p2 && Text(a, p2, e) && Unescaped(text) == Prepend(a[p..p2], Unescaped(a[p2..e]))
  }

  /** What the loop has made of the buffer when it ends. */
  ghost predicate ReadBack(a: array<char>, p: nat, found: bool, text: string)
    reads a
  {
    match Unescaped(text)
    case None => !found
    case Some(s) => found && p + |s| < a.Length && a[p..p + |s|] == s && a[p + |s|] == NUL
  }

  /** The loop in conf_set_sym_val that removes the escapes, from behind the opening quote on. */
  method UnescapeInPlace(a: array<char>, p: nat, ghost e0: nat) returns (found: bool)
    requires Text(a, p, e0)
    modifies a
    ensures ReadBack(a, p, found, old(a[p..e0])) && a[..p] == old(a[..p])
  {
    ghost var (text, e) := (a[p..e0], e0);
    var p2 := p;
    assert a[p..p] == "";
    PrependNothing(Unescaped(text));
    while true
      invariant Halfway(a, p, p2, e, text) && a[..p] == old(a[..p])
      decreases a.Length - p2
    {
      var special, q := Strpbrk(a, p2, e);
      SkipPlain(a, p, p2, q, e, text);
      p2 := q;
      if !special {
        assert Unescaped(a[p2..e]).None?;
        return false;
      }
      if a[p2] == '"' {
        assert a[p2..e][0] == '"';
        assert a[p..p2] + "" == a[p..p2];
        assert Unescaped(text) == Some(a[p..p2]);
        a[p2] := NUL;
        return true;
      }
      e := DropBackslash(a, p, p2, e, text);
      p2 := p2 + 1;
    }
  }

  lemma PrependNothing(r: Option<string>)
    ensures Prepend("", r) == r
  {
    if r.Some? {
      assert "" + r.value == r.value;
    }
  }

  lemma SkipPlain(a: array<char>, p: nat, p2: nat, q: nat, e: nat, text: string)
    requires Halfway(a, p, p2, e, text) && p2 <= q <= e && forall i :: p2 <= i < q ==> !Special(a[i])
    ensures Halfway(a, p, q, e, text)
  {
    assert a[p2..e] == a[p2..q] + a[q..e];
    UnescapePlain(a[p2..q], a[q..e]);
    PrependTwice(a[p..p2], a[p2..q], Unescaped(a[q..e]));
    assert a[p..p2] + a[p2..q] == a[p..q];
  }

  /** memmove over a backslash. The character behind it is kept without being looked at; when there is none, the
      old terminator still ends the string. */
  method DropBackslash(a: array<char>, p: nat, p2: nat, ghost e: nat, ghost text: string) returns (ghost e': nat)
    requires Halfway(a, p, p2, e, text) && p2 < e && a[p2] == '\\'
    modifies a
    ensures Halfway(a, p, p2 + 1, e', text) && a[..p] == old(a[..p])
  {
    var n := Strlen(a, p2, e);
    ghost var was := a[..];
    MoveLeft(a, p2, n);
    Moved(was, a[..], p2, n);
    if n == 1 {
      e' := e;
      assert was[p2..e] == "\\" && a[p2 + 1..e'] == "";
    } else {
      e' := e - 1;
      Dropped(was, a[..], p, p2, e, text);
      assert a[p..p2 + 1] == a[..][p..p2 + 1] && a[p2 + 1..e'] == a[..][p2 + 1..e'];
    }
    assert a[..p] == a[..][..p] && was[..p] == old(a[..p]);
  }

  /** t is s with the n characters behind position to moved there. */
  ghost predicate ShiftedLeft(s: string, t: string, to: nat, n: nat) {
    && |s| == |t| && to + 1 + n <= |s|
    && (forall i :: 0 <= i < to ==> t[i] == s[i])
    && (forall i :: to <= i < to + n ==> t[i] == s[i + 1])
    && (forall i :: to + n <= i < |s| ==> t[i] == s[i])
  }

  lemma Moved(s: string, t: string, to: nat, n: nat)
    requires |s| == |t| && to + 1 + n <= |s|
    requires t[..to] == s[..to] && t[to..to + n] == s[to + 1..to + 1 + n] && t[to + n..] == s[to + n..]
    ensures ShiftedLeft(s, t, to, n)
  {
    assert forall i :: 0 <= i < to ==> t[i] == t[..to][i];
    assert forall i :: to <= i < to + n ==> t[i] == t[to..to + n][i - to];
    assert forall i :: to + n <= i < |s| ==> t[i] == t[to + n..][i - to - n];
  }

  lemma Dropped(s: string, t: string, p: nat, p2: nat, e: nat, text: string)
    requires p <= p2 && p2 + 1 < e < |s| && ShiftedLeft(s, t, p2, e - p2) && s[p2] == '\\'
    requires Unescaped(text) == Prepend(s[p..p2], Unescaped(s[p2..e]))
    ensures Unescaped(text) == Prepend(t[p..p2 + 1], Unescaped(t[p2 + 1..e - 1]))
  {
    var (c, rest) := (s[p2 + 1], s[p2 + 2..e]);
    assert s[p2..e] == ['\\', c] + rest;
    UnescapeBackslash(c, rest);
    PrependTwice(s[p..p2], [c], Unescaped(rest));
    assert t[p2 + 1..e - 1] == rest;
    assert t[p..p2 + 1] == s[p..p2] + [c];
  }

  // ---------- lines ----------

  const PREFIX: string := "CONFIG_"

  predicate IsDigit(c: char) { '0' <= c <= '9' }

  predicate IsXDigit(c: char) { IsDigit(c) || 'a' <= c <= 'f' || 'A' <= c <= 'F' }

  predicate AllDigits(s: string) { forall i :: 0 <= i < |s| ==> IsDigit(s[i]) }

  predicate AllXDigits(s: string) { forall i :: 0 <= i < |s| ==> IsXDigit(s[i]) }

  /** sym_string_valid for the types that are stored as text. */
  predicate StringValid(typ: SymType, s: string) {
    match typ
    case String => true
    case Int =>
      var d := if s != "" && s[0] == '-' then s[1..] else s;
      d != "" && AllDigits(d) && (d[0] == '0' ==> |d| == 1)
    case Hex =>
      var d := if |s| >= 2 && s[0] == '0' && (s[1] == 'x' || s[1] == 'X') then s[2..] else s;
      d != "" && AllXDigits(d)
    case _ => false
  }

  /** __print_symbol for .config files. A tristate value of n is written as a comment. */
  function PrintSymbol(name: string, typ: SymType, tri: Tri, val: string): string {
    match typ
    case Unknown => ""
    case Boolean | Tristate =>
      if tri == NO then "# " + PREFIX + name + " is not set\n"
      else PREFIX + name + "=" + (if tri == MOD then "m" else "y") + "\n"
    case String => PREFIX + name + "=" + Quoted(val) + "\n"
    case _ => PREFIX + name + "=" + val + "\n"
  }

  predicate StartsWith(s: string, p: string) {
    |p| <= |s| && s[..|p|] == p
  }

  /** strchr: the position of the first c from i on, or the length. */
  function IndexOf(s: string, c: char, i: nat): (r: nat)
    requires i <= |s|
    ensures i <= r <= |s| && (r < |s| ==> s[r] == c) && forall j :: i <= j < r ==> s[j] != c
    decreases |s| - i
  {
    if i == |s| || s[i] == c then i else IndexOf(s, c, i + 1)
  }

  /** How conf_read_simple takes a line apart. */
  datatype Line = Ignored | Unset(name: string) | Assigned(name: string, value: string)

  /** Up to the end of the line, without a carriage return before it. */
  function ValueOf(p: string): string {
    var nl := IndexOf(p, '\n', 0);
    if nl == |p| then p
    else if nl > 0 && p[nl - 1] == '\r' then p[..nl - 1]
    else p[..nl]
  }

  function SplitLine(line: string): Line {
    if line != "" && line[0] == '#' then
      if |line| < 2 || !StartsWith(line[2..], PREFIX) then Ignored
      else
        var name := line[2 + |PREFIX|..];
        var sp := IndexOf(name, ' ', 0);
        if sp == |name| || !StartsWith(name[sp + 1..], "is not set") then Ignored else Unset(name[..sp])
    else if StartsWith(line, PREFIX) then
      var rest := line[|PREFIX|..];
      var eq := IndexOf(rest, '=', 0);
      if eq == |rest| then Ignored else Assigned(rest[..eq], ValueOf(rest[eq + 1..]))
    else Ignored
  }

  /** What reading does to a symbol. */
  datatype Setting = TriSetting(tri: Tri) | StrSetting(val: string) | Nothing | Refused

  /** conf_set_sym_val. */
  function SetVal(typ: SymType, p: string): Setting {
    match typ
    case Tristate | Boolean =>
      if typ.Tristate? && p != "" && p[0] == 'm' then TriSetting(MOD)
      else if p != "" && p[0] == 'y' then TriSetting(YES)
      else if p != "" && p[0] == 'n' then TriSetting(NO)
      else Refused
    case String =>
      if p == "" || p[0] != '"' then Nothing
      else
        var s := Unescaped(p[1..]);
        if s.Some? then StrSetting(s.value) else Refused
    case Int | Hex => if StringValid(typ, p) then StrSetting(p) else Refused
    case Unknown => Nothing
  }

  /** What a line does: it sets one symbol, or nothing. Unknown is the type of a name that is no symbol. */
  function ReadLine(typeOf: string -> SymType, line: string): seq<(string, Setting)> {
    match SplitLine(line)
    case Ignored => []
    case Unset(name) => if typeOf(name).Boolean? || typeOf(name).Tristate? then [(name, TriSetting(NO))] else []
    case Assigned(name, p) =>
      var v := SetVal(typeOf(name), p);
      if v.TriSetting? || v.StrSetting? then [(name, v)] else []
  }

  /** compat_getline: the lines of a file, each with its line break. */
  function FileLines(text: string): seq<string>
    decreases |text|
  {
    if text == "" then []
    else
      var nl := IndexOf(text, '\n', 0);
      if nl == |text| then [text] else [text[..nl + 1]] + FileLines(text[nl + 1..])
  }

  function ReadLines(typeOf: string -> SymType, lines: seq<string>): seq<(string, Setting)> {
    if lines == [] then [] else ReadLine(typeOf, lines[0]) + ReadLines(typeOf, lines[1..])
  }

  /** conf_read_simple: everything that the lines of a file set, in order. */
  function ReadFile(typeOf: string -> SymType, text: string): seq<(string, Setting)> {
    ReadLines(typeOf, FileLines(text))
  }

  predicate PlainName(name: string) {
    forall i :: 0 <= i < |name| ==> name[i] != '=' && name[i] != ' ' && name[i] != '\n'
  }

  lemma IndexOfAt(a: string, c: char, b: string)
    requires forall i :: 0 <= i < |a| ==> a[i] != c
    ensures IndexOf(a + [c] + b, c, 0) == |a|
  {
    var s := a + [c] + b;
    assert s[|a|] == c;
    assert forall i :: 0 <= i < |a| ==> s[i] == a[i];
  }

  lemma SplitAssignment(name: string, value: string)
    requires PlainName(name)
    ensures SplitLine(PREFIX + name + "=" + value) == Assigned(name, ValueOf(value))
  {
    var line := PREFIX + name + "=" + value;
    var rest := name + ['='] + value;
    assert line == PREFIX + rest;
    assert line[..|PREFIX|] == PREFIX && line[|PREFIX|..] == rest && line[0] == 'C';
    IndexOfAt(name, '=', value);
    assert rest[..|name|] == name && rest[|name| + 1..] == value;
  }

  lemma SplitComment(name: string)
    requires PlainName(name)
    ensures SplitLine("# " + PREFIX + name + " is not set\n") == Unset(name)
  {
    var tail := "is not set\n";
    var line := "# " + PREFIX + name + " is not set\n";
    var rest := name + [' '] + tail;
    assert line == "# " + PREFIX + rest;
    assert line[2..] == PREFIX + rest && line[2..][..|PREFIX|] == PREFIX && line[2 + |PREFIX|..] == rest;
    IndexOfAt(name, ' ', tail);
    assert rest[..|name|] == name && rest[|name| + 1..] == tail;
    assert tail[..10] == "is not set";
  }

  /** A value without line breaks that does not end in a carriage return is read to its end. */
  lemma ValueOfLine(value: string)
    requires (forall i :: 0 <= i < |value| ==> value[i] != '\n') && (value != "" ==> value[|value| - 1] != '\r')
    ensures ValueOf(value + "\n") == value
  {
    IndexOfAt(value, '\n', "");
    assert value + ['\n'] + "" == value + "\n";
    assert (value + "\n")[..|value|] == value;
  }

  lemma UnsetRoundTrip(name: string, typ: SymType)
    requires PlainName(name) && (typ.Tristate? || typ.Boolean?)
    ensures SplitLine(PrintSymbol(name, typ, NO, "")) == Unset(name)
  {
    SplitComment(name);
  }

  lemma SetRoundTrip(name: string, typ: SymType, tri: Tri)
    requires PlainName(name) && (typ.Tristate? || typ.Boolean?) && tri != NO
    ensures SplitLine(PrintSymbol(name, typ, tri, "")) == Assigned(name, if tri == MOD then "m" else "y")
  {
    var v := if tri == MOD then "m" else "y";
    ValueOfLine(v);
    SplitAssignment(name, v + "\n");
    assert PREFIX + name + "=" + v + "\n" == PREFIX + name + "=" + (v + "\n");
  }

  lemma ValidNumberIsOneLine(typ: SymType, val: string)
    requires (typ.Int? || typ.Hex?) && StringValid(typ, val)
    ensures forall i :: 0 <= i < |val| ==> val[i] != '\n' && val[i] != '\r'
  {
    if typ.Int? {
      var d := if val != "" && val[0] == '-' then val[1..] else val;
      assert forall i :: 0 <= i < |val| ==> IsDigit(val[i]) || val[i] == '-' by {
        forall i | 0 <= i < |val|
          ensures IsDigit(val[i]) || val[i] == '-'
        {
          if d == val {
            assert IsDigit(d[i]);
          } else if i > 0 {
            assert d[i - 1] == val[i];
          }
        }
      }
    } else {
      var prefixed := |val| >= 2 && val[0] == '0' && (val[1] == 'x' || val[1] == 'X');
      forall i | 0 <= i < |val|
        ensures val[i] != '\n' && val[i] != '\r'
      {
        if !prefixed {
          assert IsXDigit(val[i]);
        } else if i > 1 {
          assert val[2..][i - 2] == val[i];
          assert IsXDigit(val[2..][i - 2]);
        }
      }
    }
  }

  lemma {:induction false} EscapedOneLine(s: string)
    requires forall i :: 0 <= i < |s| ==> s[i] != '\n'
    ensures forall i :: 0 <= i < |Escaped(s)| ==> Escaped(s)[i] != '\n'
  {
    if s != "" {
      EscapedOneLine(s[1..]);
    }
  }

  lemma CutAtLineBreak(first: string)
    requires first != "" && forall i :: 0 <= i < |first| ==> first[i] != '\n'
    ensures ValueOf(first + "\n") == if first[|first| - 1] == '\r' then first[..|first| - 1] else first
  {
    var text := first + "\n";
    IndexOfAt(first, '\n', "");
    assert first + ['\n'] + "" == text;
    assert text[..|first|] == first && text[..|first| - 1] == first[..|first| - 1];
  }

  lemma BrokenQuoted(head: string, tail: string)
    ensures Quoted(head + ['\n'] + tail) + "\n" == "\"" + Escaped(head) + ['\n'] + (Escaped(tail) + "\"\n")
  {
    var more := ['\n'] + tail;
    EscapedAppend(head, more);
    assert head + ['\n'] + tail == head + more;
    assert more[1..] == tail;
    assert Escaped(more) == ['\n'] + Escaped(tail);
    AssociateSix("\"", Escaped(head), ['\n'], Escaped(tail), "\"", "\n");
    assert "\"" + "\n" == "\"\n";
  }

  lemma WithoutReturn(first: string, head: string)
    requires first == "\"" + Escaped(head)
    ensures SetVal(String, first) == Refused
  {
    UnterminatedIsRefused(head);
    assert first[1..] == Escaped(head);
  }

  lemma CarriageReturn(first: string, head: string)
    requires first == "\"" + Escaped(head) && first[|first| - 1] == '\r'
    ensures SetVal(String, first[..|first| - 1]) == Refused
  {
    var m := |head| - 1;
    var (h, c) := (head[..m], [head[m]]);
    assert head == h + c;
    EscapedAppend(h, c);
    assert c[1..] == "";
    assert Escaped(c)[|Escaped(c)| - 1] == head[m];
    assert Escaped(c) == c;
    assert first[..|first| - 1] == "\"" + Escaped(h);
    WithoutReturn(first[..|first| - 1], h);
  }

  /** The line that ends at a line break inside a string is refused: it lacks the closing quote. */
  lemma CutOffIsRefused(first: string, head: string)
    requires first == "\"" + Escaped(head) && forall i :: 0 <= i < |first| ==> first[i] != '\n'
    ensures SetVal(String, ValueOf(first + "\n")) == Refused
  {
    CutAtLineBreak(first);
    if first[|first| - 1] == '\r' {
      CarriageReturn(first, head);
    } else {
      WithoutReturn(first, head);
    }
  }

  // ---------- whole files ----------

  lemma {:induction false} ReadLinesAppend(typeOf: string -> SymType, a: seq<string>, b: seq<string>)
    ensures ReadLines(typeOf, a + b) == ReadLines(typeOf, a) + ReadLines(typeOf, b)
  {
    if a == [] {
      assert a + b == b;
    } else {
      assert (a + b)[0] == a[0] && (a + b)[1..] == a[1..] + b;
      ReadLinesAppend(typeOf, a[1..], b);
    }
  }

  /** A line is read on its own, whatever follows it. */
  lemma FirstLine(body: string, rest: string)
    requires forall i :: 0 <= i < |body| ==> body[i] != '\n'
    ensures FileLines(body + "\n" + rest) == [body + "\n"] + FileLines(rest)
  {
    var text := body + ['\n'] + rest;
    assert text == body + "\n" + rest;
    IndexOfAt(body, '\n', rest);
    assert text[..|body| + 1] == body + "\n" && text[|body| + 1..] == rest;
  }

  /** A symbol as it is written: its name, its type, and the value that its type uses. */
  datatype Item = Item(name: string, typ: SymType, tri: Tri, val: string)

  /** An item that a configuration can hold: typed values, and numbers that are valid. */
  predicate Proper(x: Item) {
    && PlainName(x.name) && !x.typ.Unknown?
    && (x.typ.Boolean? ==> x.tri != MOD)
    && (x.typ.Int? || x.typ.Hex? ==> StringValid(x.typ, x.val))
  }

  function Print(x: Item): string {
    PrintSymbol(x.name, x.typ, x.tri, x.val)
  }

  /** What reading an item should set. */
  function Expected(x: Item): (string, Setting) {
    (x.name, if x.typ.Boolean? || x.typ.Tristate? then TriSetting(x.tri) else StrSetting(x.val))
  }

  predicate OneLineValue(x: Item) {
    x.typ.String? ==> '\n' !in x.val
  }

  /** The line of an item, without the line break at its end. */
  function LineOf(x: Item): string
    requires !x.typ.Unknown?
  {
    match x.typ
    case Boolean | Tristate =>
      if x.tri == NO then "# " + PREFIX + x.name + " is not set"
      else PREFIX + x.name + "=" + (if x.tri == MOD then "m" else "y")
    case String => PREFIX + x.name + "=" + Quoted(x.val)
    case _ => PREFIX + x.name + "=" + x.val
  }

  lemma LineOfPrints(x: Item)
    requires !x.typ.Unknown?
    ensures Print(x) == LineOf(x) + "\n"
  {
    if (x.typ.Boolean? || x.typ.Tristate?) && x.tri == NO {
      assert " is not set" + "\n" == " is not set\n";
      AssociateSix("# ", PREFIX, x.name, " is not set", "\n", "");
    }
  }

  lemma LineOfIsOneLine(x: Item)
    requires Proper(x) && OneLineValue(x)
    ensures forall i :: 0 <= i < |LineOf(x)| ==> LineOf(x)[i] != '\n'
  {
    if x.typ.String? {
      EscapedOneLine(x.val);
    } else if x.typ.Int? || x.typ.Hex? {
      ValidNumberIsOneLine(x.typ, x.val);
    }
  }

  lemma AssignmentReads(name: string, value: string)
    requires PlainName(name) && (forall i :: 0 <= i < |value| ==> value[i] != '\n')
    requires value != "" ==> value[|value| - 1] != '\r'
    ensures SplitLine(PREFIX + name + "=" + value + "\n") == Assigned(name, value)
  {
    ValueOfLine(value);
    SplitAssignment(name, value + "\n");
    assert PREFIX + name + "=" + value + "\n" == PREFIX + name + "=" + (value + "\n");
  }

  lemma QuotedReads(val: string)
    requires '\n' !in val
    ensures var q := Quoted(val);
      (forall i :: 0 <= i < |q| ==> q[i] != '\n') && q[|q| - 1] == '"' && SetVal(String, q) == StrSetting(val)
  {
    EscapedOneLine(val);
    UnescapeEscaped(val, "");
    assert Quoted(val)[1..] == Escaped(val) + "\"" + "";
  }

  lemma TriItemReads(typeOf: string -> SymType, x: Item)
    requires Proper(x) && (x.typ.Boolean? || x.typ.Tristate?) && typeOf(x.name) == x.typ
    ensures ReadLine(typeOf, Print(x)) == [Expected(x)]
  {
    if x.tri == NO {
      UnsetItemReads(typeOf, x);
    } else {
      SetItemReads(typeOf, x);
    }
  }

  lemma UnsetItemReads(typeOf: string -> SymType, x: Item)
    requires PlainName(x.name) && (x.typ.Boolean? || x.typ.Tristate?) && typeOf(x.name) == x.typ && x.tri == NO
    ensures ReadLine(typeOf, Print(x)) == [Expected(x)]
  {
    UnsetRoundTrip(x.name, x.typ);
    assert Print(x) == PrintSymbol(x.name, x.typ, NO, "");
  }

  lemma SetItemReads(typeOf: string -> SymType, x: Item)
    requires Proper(x) && (x.typ.Boolean? || x.typ.Tristate?) && typeOf(x.name) == x.typ && x.tri != NO
    ensures ReadLine(typeOf, Print(x)) == [Expected(x)]
  {
    SetRoundTrip(x.name, x.typ, x.tri);
    assert Print(x) == PrintSymbol(x.name, x.typ, x.tri, "");
  }

  lemma StringItemReads(typeOf: string -> SymType, x: Item)
    requires Proper(x) && OneLineValue(x) && x.typ.String? && typeOf(x.name) == x.typ
    ensures ReadLine(typeOf, Print(x)) == [Expected(x)]
  {
    QuotedReads(x.val);
    AssignmentReads(x.name, Quoted(x.val));
  }

  lemma NumberItemReads(typeOf: string -> SymType, x: Item)
    requires Proper(x) && (x.typ.Int? || x.typ.Hex?) && typeOf(x.name) == x.typ
    ensures ReadLine(typeOf, Print(x)) == [Expected(x)]
  {
    ValidNumberIsOneLine(x.typ, x.val);
    AssignmentReads(x.name, x.val);
  }

  /** The line of an item sets what the item says. */
  lemma ItemReads(typeOf: string -> SymType, x: Item)
    requires Proper(x) && OneLineValue(x) && typeOf(x.name) == x.typ
    ensures ReadLine(typeOf, Print(x)) == [Expected(x)]
  {
    match x.typ
    case Boolean | Tristate => TriItemReads(typeOf, x);
    case String => StringItemReads(typeOf, x);
    case _ => NumberItemReads(typeOf, x);
  }

  function PrintAll(xs: seq<Item>): string {
    if xs == [] then "" else Print(xs[0]) + PrintAll(xs[1..])
  }

  function ExpectedAll(xs: seq<Item>): seq<(string, Setting)> {
    if xs == [] then [] else [Expected(xs[0])] + ExpectedAll(xs[1..])
  }

  /** A file of any items whose strings have no line breaks is read back as it was written: the same settings, in the
      same order, and no others. */
  lemma {:induction false} FileRoundTrip(typeOf: string -> SymType, xs: seq<Item>)
    requires forall i :: 0 <= i < |xs| ==> Proper(xs[i]) && OneLineValue(xs[i]) && typeOf(xs[i].name) == xs[i].typ
    ensures ReadFile(typeOf, PrintAll(xs)) == ExpectedAll(xs)
  {
    if xs != [] {
      var x := xs[0];
      LineOfPrints(x);
      LineOfIsOneLine(x);
      FirstLine(LineOf(x), PrintAll(xs[1..]));
      ItemReads(typeOf, x);
      FileRoundTrip(typeOf, xs[1..]);
      ReadLinesAppend(typeOf, [Print(x)], FileLines(PrintAll(xs[1..])));
      assert [Print(x)][1..] == [];
    }
  }

  lemma {:induction false} UnescapedOneLine(t: string)
    requires forall i :: 0 <= i < |t| ==> t[i] != '\n'
    ensures Unescaped(t).Some? ==> forall i :: 0 <= i < |Unescaped(t).value| ==> Unescaped(t).value[i] != '\n'
    decreases |t|
  {
    if t != "" && t != "\\" && t[0] != '"' {
      UnescapedOneLine(if t[0] == '\\' then t[2..] else t[1..]);
    }
  }

  lemma ReadLineOneLine(typeOf: string -> SymType, line: string)
    ensures forall i :: 0 <= i < |ReadLine(typeOf, line)| && ReadLine(typeOf, line)[i].1.StrSetting? ==>
      '\n' !in ReadLine(typeOf, line)[i].1.val
  {
    match SplitLine(line)
    case Assigned(name, p) =>
      var typ := typeOf(name);
      if typ.String? && p != "" {
        UnescapedOneLine(p[1..]);
      } else if (typ.Int? || typ.Hex?) && StringValid(typ, p) {
        ValidNumberIsOneLine(typ, p);
      }
    case _ =>
  }

  /** No file sets a string to a value with a line break. */
  lemma {:induction false} ReadLinesOneLine(typeOf: string -> SymType, lines: seq<string>)
    ensures forall i :: 0 <= i < |ReadLines(typeOf, lines)| && ReadLines(typeOf, lines)[i].1.StrSetting? ==>
      '\n' !in ReadLines(typeOf, lines)[i].1.val
  {
    if lines != [] {
      ReadLineOneLine(typeOf, lines[0]);
      ReadLinesOneLine(typeOf, lines[1..]);
    }
  }

  lemma StringReads(typeOf: string -> SymType, name: string, val: string)
    requires PlainName(name) && typeOf(name) == String && '\n' !in val
    ensures ReadFile(typeOf, PrintSymbol(name, String, NO, val)) == [(name, StrSetting(val))]
  {
    var x := Item(name, String, NO, val);
    FileRoundTrip(typeOf, [x]);
    PrintOne(x);
  }

  lemma PrintOne(x: Item)
    ensures PrintAll([x]) == Print(x) && ExpectedAll([x]) == [Expected(x)]
  {
    assert [x][1..] == [];
    assert Print(x) + "" == Print(x);
  }

  lemma OnlyOneLine(typeOf: string -> SymType, text: string, name: string, val: string)
    requires ReadFile(typeOf, text) == [(name, StrSetting(val))]
    ensures '\n' !in val
  {
    ReadLinesOneLine(typeOf, FileLines(text));
    assert ReadFile(typeOf, text)[0].1 == StrSetting(val);
  }

  /** The printed text of a string value is read back as exactly that setting if and only if the value has no line
      break. */
  lemma StringRoundTrip(typeOf: string -> SymType, name: string, val: string)
    requires PlainName(name) && typeOf(name) == String
    ensures ReadFile(typeOf, PrintSymbol(name, String, NO, val)) == [(name, StrSetting(val))] <==> '\n' !in val
  {
    if '\n' !in val {
      StringReads(typeOf, name, val);
    } else if ReadFile(typeOf, PrintSymbol(name, String, NO, val)) == [(name, StrSetting(val))] {
      OnlyOneLine(typeOf, PrintSymbol(name, String, NO, val), name, val);
    }
  }

  lemma ReadFirst(typeOf: string -> SymType, body: string, rest: string)
    requires forall i :: 0 <= i < |body| ==> body[i] != '\n'
    ensures ReadFile(typeOf, body + "\n" + rest) == ReadLine(typeOf, body + "\n") + ReadFile(typeOf, rest)
  {
    FirstLine(body, rest);
    var (line, more) := (body + "\n", FileLines(rest));
    assert ([line] + more)[0] == line && ([line] + more)[1..] == more;
  }

  /** The line that the first break in a string leaves. */
  function CutOff(name: string, head: string): string {
    PREFIX + name + "=" + ("\"" + Escaped(head))
  }

  lemma CutOffReads(typeOf: string -> SymType, name: string, head: string)
    requires PlainName(name) && typeOf(name) == String && forall i :: 0 <= i < |head| ==> head[i] != '\n'
    ensures ReadLine(typeOf, CutOff(name, head) + "\n") == []
  {
    var value := "\"" + Escaped(head);
    assert CutOff(name, head) + "\n" == PREFIX + name + "=" + (value + "\n");
    SplitAssignment(name, value + "\n");
    EscapedOneLine(head);
    CutOffIsRefused(value, head);
  }

  lemma CutOffText(name: string, head: string, tail: string)
    ensures PrintSymbol(name, String, NO, head + ['\n'] + tail) == CutOff(name, head) + "\n" + (Escaped(tail) + "\"\n")
  {
    BrokenQuoted(head, tail);
    BrokenText(PREFIX + name + "=", Quoted(head + ['\n'] + tail), "\"" + Escaped(head), Escaped(tail) + "\"\n");
  }

  lemma BrokenText(front: string, quoted: string, value: string, rest: string)
    requires quoted + "\n" == value + ['\n'] + rest
    ensures front + quoted + "\n" == front + value + "\n" + rest
  {
    assert front + quoted + "\n" == front + (quoted + "\n");
  }

  lemma CutOffIsOneLine(name: string, head: string)
    requires PlainName(name) && forall i :: 0 <= i < |head| ==> head[i] != '\n'
    ensures forall i :: 0 <= i < |CutOff(name, head)| ==> CutOff(name, head)[i] != '\n'
  {
    EscapedOneLine(head);
  }

  /** With a line break, the line up to it is refused, and the rest of the value is read as lines of its own. */
  lemma BrokenString(typeOf: string -> SymType, name: string, head: string, tail: string)
    requires PlainName(name) && typeOf(name) == String && forall i :: 0 <= i < |head| ==> head[i] != '\n'
    ensures ReadFile(typeOf, PrintSymbol(name, String, NO, head + ['\n'] + tail)) ==
      ReadFile(typeOf, Escaped(tail) + "\"\n")
  {
    var rest := Escaped(tail) + "\"\n";
    CutOffText(name, head, tail);
    CutOffIsOneLine(name, head);
    ReadFirst(typeOf, CutOff(name, head), rest);
    CutOffReads(typeOf, name, head);
    assert [] + ReadFile(typeOf, rest) == ReadFile(typeOf, rest);
  }

  lemma PrefixIsPlain()
    ensures forall i :: 0 <= i < |PREFIX| ==> !Special(PREFIX[i])
  {
  }

  lemma JoinedEscapes(a: string, b: string, c: string)
    requires (forall i :: 0 <= i < |a| ==> !Special(a[i])) && (forall i :: 0 <= i < |b| ==> !Special(b[i]))
    requires forall i :: 0 <= i < |c| ==> !Special(c[i])
    ensures Escaped(a + b + c) == a + b + c
  {
    PlainEscapes(a + b + c);
  }

  lemma QuotedYes(typeOf: string -> SymType, other: string, value: string)
    requires PlainName(other) && typeOf(other) == Boolean && value == "y\""
    ensures ReadLine(typeOf, PREFIX + other + "=" + value + "\n") == [(other, TriSetting(YES))]
  {
    AssignmentReads(other, value);
  }

  lemma AssignmentSets(typeOf: string -> SymType, other: string, value: string)
    requires PlainName(other) && typeOf(other) == Boolean && value == "y\""
    ensures ReadFile(typeOf, PREFIX + other + "=" + value + "\n") == [(other, TriSetting(YES))]
  {
    QuotedYes(typeOf, other, value);
    var body := PREFIX + other + "=" + value;
    ReadFirst(typeOf, body, "");
    assert body + "\n" + "" == body + "\n";
  }

  /** So a string value can set any bool. */
  lemma BrokenStringSetsAnother(typeOf: string -> SymType, name: string, head: string, other: string)
    requires PlainName(name) && typeOf(name) == String && forall i :: 0 <= i < |head| ==> head[i] != '\n'
    requires PlainName(other) && typeOf(other) == Boolean && forall i :: 0 <= i < |other| ==> !Special(other[i])
    ensures ReadFile(typeOf, PrintSymbol(name, String, NO, head + ['\n'] + (PREFIX + other + "=y"))) ==
      [(other, TriSetting(YES))]
  {
    PrefixIsPlain();
    JoinedEscapes(PREFIX, other, "=y");
    BrokenString(typeOf, name, head, PREFIX + other + "=y");
    AssignmentSets(typeOf, other, "y\"");
    SameText(PREFIX + other);
  }

  lemma SameText(front: string)
    ensures front + "=y" + "\"\n" == front + "=" + "y\"" + "\n"
  {
  }
}
