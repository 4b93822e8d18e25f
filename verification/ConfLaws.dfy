/** What the lines of a configuration file set, whoever has written them. */
module ConfLaws {
  import opened Wrappers
  import opened Exprs
  import opened ConfText
  import opened Comparison
  import opened MenuTree
  import ConfFile
  import W = ConfWrite

  predicate OneLine(s: string) {
    forall i :: 0 <= i < |s| ==> s[i] != '\n'
  }

  /** The line CONFIG_name=value. */
  function Assignment(name: string, value: string): string { PREFIX + name + "=" + value }

  lemma AssignmentOneLine(name: string, value: string)
    requires PlainName(name) && OneLine(value)
    ensures OneLine(Assignment(name, value))
  {
    assert OneLine(PREFIX) && OneLine("=");
  }

  /** A line alone is read as what it assigns, without a carriage return at its end. */
  lemma AssignmentLine(typeOf: string -> SymType, name: string, value: string)
    requires PlainName(name) && OneLine(value)
    ensures ReadFile(typeOf, Assignment(name, value) + "\n") ==
      var p := if value != "" && value[|value| - 1] == '\r' then value[..|value| - 1] else value;
      var v := SetVal(typeOf(name), p);
      if v.TriSetting? || v.StrSetting? then [(name, v)] else []
  {
    AssignmentOneLine(name, value);
    ConfFile.OneLineReads(typeOf, Assignment(name, value));
    SplitAssignment(name, value + "\n");
    if value == "" {
      ValueOfLine(value);
    } else {
      CutAtLineBreak(value);
    }
    assert Assignment(name, value) + "\n" == PREFIX + name + "=" + (value + "\n");
  }

  // ---------- bools and tristates ----------

  /** The first character of the value decides: y and n, and m for a tristate. Anything else sets nothing. */
  lemma TristateLine(typeOf: string -> SymType, name: string, value: string)
    requires PlainName(name) && OneLine(value) && (typeOf(name).Boolean? || typeOf(name).Tristate?)
    ensures ReadFile(typeOf, Assignment(name, value) + "\n") ==
      if value == "" then []
      else if value[0] == 'y' then [(name, TriSetting(YES))]
      else if value[0] == 'n' then [(name, TriSetting(NO))]
      else if value[0] == 'm' && typeOf(name).Tristate? then [(name, TriSetting(MOD))]
      else []
  {
    AssignmentLine(typeOf, name, value);
  }

  /** The comment on an unset symbol sets a bool or tristate to n, and nothing else. */
  lemma UnsetLine(typeOf: string -> SymType, name: string, rest: string)
    requires PlainName(name) && OneLine(rest)
    ensures ReadFile(typeOf, "# " + PREFIX + name + " is not set" + rest + "\n") ==
      if typeOf(name).Boolean? || typeOf(name).Tristate? then [(name, TriSetting(NO))] else []
  {
    var body := "# " + PREFIX + name + " is not set" + rest;
    UnsetOneLine(name, rest);
    ConfFile.OneLineReads(typeOf, body);
    UnsetSplits(name, rest);
  }

  lemma UnsetOneLine(name: string, rest: string)
    requires PlainName(name) && OneLine(rest)
    ensures OneLine("# " + PREFIX + name + " is not set" + rest)
  {
    assert OneLine("# ") && OneLine(PREFIX) && OneLine(" is not set");
  }

  lemma UnsetSplits(name: string, rest: string)
    requires PlainName(name)
    ensures SplitLine("# " + PREFIX + name + " is not set" + rest + "\n") == Unset(name)
  {
    var text := "is not set";
    var tail := text + rest + "\n";
    var line := "# " + PREFIX + name + " is not set" + rest + "\n";
    var more := name + [' '] + tail;
    assert line == "# " + PREFIX + more;
    assert line[2..] == PREFIX + more && line[2..][..|PREFIX|] == PREFIX && line[2 + |PREFIX|..] == more;
    IndexOfAt(name, ' ', tail);
    assert more[..|name|] == name && more[|name| + 1..] == tail && tail[..|text|] == text;
  }

  // ---------- strings ----------

  /** A string is set by text in quotes only, to that text without its escapes, whatever follows the closing quote. */
  lemma StringLine(typeOf: string -> SymType, name: string, val: string, rest: string)
    requires PlainName(name) && OneLine(val) && OneLine(rest) && typeOf(name) == String
    ensures ReadFile(typeOf, Assignment(name, Quoted(val) + rest) + "\n") == [(name, StrSetting(val))]
  {
    var value := Quoted(val) + rest;
    QuotedOneLine(val, rest);
    AssignmentLine(typeOf, name, value);
    QuotedRead(val, rest, value);
  }

  /** The carriage return is not part of the text in quotes. */
  lemma QuotedRead(val: string, rest: string, value: string)
    requires value == Quoted(val) + rest
    ensures value != "" && SetVal(String, value) == StrSetting(val)
    ensures value[|value| - 1] == '\r' ==> SetVal(String, value[..|value| - 1]) == StrSetting(val)
  {
    QuotedSets(val, rest);
    if rest != "" {
      QuotedSets(val, rest[..|rest| - 1]);
      QuotedCut(Quoted(val), rest);
    }
  }

  lemma QuotedOneLine(val: string, rest: string)
    requires OneLine(val) && OneLine(rest)
    ensures OneLine(Quoted(val) + rest)
  {
    EscapedOneLine(val);
  }

  lemma QuotedSets(val: string, rest: string)
    ensures SetVal(String, Quoted(val) + rest) == StrSetting(val)
    ensures Quoted(val)[|Quoted(val)| - 1] == '"'
  {
    var q := Quoted(val) + rest;
    UnescapeEscaped(val, rest);
    assert q[1..] == Escaped(val) + "\"" + rest;
  }

  lemma QuotedCut(q: string, rest: string)
    requires rest != ""
    ensures (q + rest)[..|q + rest| - 1] == q + rest[..|rest| - 1] && (q + rest)[|q + rest| - 1] == rest[|rest| - 1]
  {
  }

  lemma BareStringLine(typeOf: string -> SymType, name: string, value: string)
    requires PlainName(name) && OneLine(value) && typeOf(name) == String && (value == "" || value[0] != '"')
    ensures ReadFile(typeOf, Assignment(name, value) + "\n") == []
  {
    AssignmentLine(typeOf, name, value);
  }

  /** Only quotes and backslashes are escaped, each by one backslash. */
  lemma {:induction false} EscapesOnly(s: string, c: char)
    ensures Escaped([c]) == if c == '"' || c == '\\' then ['\\', c] else [c]
    ensures (forall i :: 0 <= i < |s| ==> s[i] != '"' && s[i] != '\\') ==> Escaped(s) == s
  {
    assert [c][1..] == "";
    if s != "" {
      EscapesOnly(s[1..], c);
      assert [s[0]] + s[1..] == s;
    }
  }

  /** Reading, a backslash is dropped and the next character taken as it is; an unescaped quote ends the text. */
  lemma UnescapesOne(c: char, t: string)
    ensures Unescaped("\\" + [c] + t) == if Unescaped(t).None? then None else Some([c] + Unescaped(t).value)
    ensures Unescaped("\"" + t) == Some("") && Unescaped("").None?
    ensures c != '"' && c != '\\' ==>
      Unescaped([c] + t) == if Unescaped(t).None? then None else Some([c] + Unescaped(t).value)
  {
    assert ("\\" + [c] + t)[2..] == t && ([c] + t)[1..] == t;
  }

  // ---------- numbers ----------

  /** An int is set exactly by the text of a number, a hex by hexadecimal digits. */
  lemma NumberLine(typeOf: string -> SymType, name: string, value: string)
    requires PlainName(name) && OneLine(value) && (typeOf(name).Int? || typeOf(name).Hex?)
    requires value != "" ==> value[|value| - 1] != '\r'
    ensures ReadFile(typeOf, Assignment(name, value) + "\n") ==
      if (if typeOf(name).Int? then IsDecimal(value) else IsHexadecimal(value)) then [(name, StrSetting(value))] else []
  {
    AssignmentLine(typeOf, name, value);
    if typeOf(name).Int? {
      ValidInt(value);
    } else {
      ValidHex(value);
    }
  }

  lemma ValidHex(s: string)
    ensures StringValid(Hex, s) <==> IsHexadecimal(s)
  {
    SameDigits(if |s| >= 2 && s[0] == '0' && (s[1] == 'x' || s[1] == 'X') then s[2..] else s);
  }

  lemma SameDigits(d: string)
    ensures AllXDigits(d) <==> HexDigits(d)
  {
    if AllXDigits(d) {
      assert forall i :: 0 <= i < |d| ==> IsXDigit(d[i]);
    }
  }

  predicate HexDigits(d: string) {
    forall i :: 0 <= i < |d| ==> '0' <= d[i] <= '9' || 'a' <= d[i] <= 'f' || 'A' <= d[i] <= 'F'
  }

  /** The text of some integer; there is also a minus zero. */
  ghost predicate IsDecimal(s: string) {
    s == "-0" || exists n: int :: s == Decimal(n)
  }

  predicate IsHexadecimal(s: string) {
    var d := if |s| >= 2 && s[0] == '0' && (s[1] == 'x' || s[1] == 'X') then s[2..] else s;
    d != "" && HexDigits(d)
  }

  predicate PlainDigits(s: string) {
    s != "" && (forall i :: 0 <= i < |s| ==> '0' <= s[i] <= '9') && (s[0] == '0' ==> |s| == 1)
  }

  lemma {:induction false} DigitsOfNumber(s: string) returns (n: nat)
    requires PlainDigits(s)
    ensures s == Digits(10, n)
  {
    var k := |s| - 1;
    var d := (s[k] as int) - ('0' as int);
    if k == 0 {
      n := d;
    } else {
      var q := DigitsOfNumber(s[..k]);
      n := 10 * q + d;
      DigitsAre(10, q);
      assert n / 10 == q && n % 10 == d && q > 0;
      assert s == s[..k] + [s[k]];
    }
  }

  lemma NumberHasDigits(n: nat)
    ensures PlainDigits(Digits(10, n))
  {
    DigitsAre(10, n);
    var s := Digits(10, n);
    forall i | 0 <= i < |s|
      ensures '0' <= s[i] <= '9'
    {
      var d :| 0 <= d < 10 && s[i] == DigitChar(d);
    }
  }

  lemma ValidInt(s: string)
    ensures StringValid(Int, s) <==> IsDecimal(s)
  {
    if StringValid(Int, s) {
      var minus := s[0] == '-';
      var d := if minus then s[1..] else s;
      assert PlainDigits(d);
      var n := DigitsOfNumber(d);
      if minus && n > 0 {
        var k: int := -(n as int);
        assert s == "-" + d && s == Decimal(k);
      } else if minus {
        assert s == "-" + d && d == "0";
      } else {
        assert s == Decimal(n);
      }
    }
    if IsDecimal(s) && s != "-0" {
      var n: int :| s == Decimal(n);
      var m := if n < 0 then -n else n;
      NumberHasDigits(m);
      assert (if n < 0 then s[1..] else s) == Digits(10, m);
    }
  }

  // ---------- what is written ----------

  /** The line of a symbol: n is a comment, y and m stand as they are, strings in quotes, numbers without. */
  lemma PrintedLine(x: Item)
    requires !x.typ.Unknown?
    ensures (x.typ.Boolean? || x.typ.Tristate?) && x.tri == NO ==> Print(x) == "# CONFIG_" + x.name + " is not set\n"
    ensures (x.typ.Boolean? || x.typ.Tristate?) && x.tri == MOD ==> Print(x) == "CONFIG_" + x.name + "=m\n"
    ensures (x.typ.Boolean? || x.typ.Tristate?) && x.tri == YES ==> Print(x) == "CONFIG_" + x.name + "=y\n"
    ensures x.typ.String? ==> Print(x) == "CONFIG_" + x.name + "=\"" + Escaped(x.val) + "\"\n"
    ensures x.typ.Int? || x.typ.Hex? ==> Print(x) == "CONFIG_" + x.name + "=" + x.val + "\n"
  {
    var (name, e) := (x.name, Escaped(x.val));
    UnsetPrinted(PREFIX, name);
    SetPrinted(PREFIX + name);
    QuotedPrinted(PREFIX + name + "=", e);
  }

  lemma UnsetPrinted(prefix: string, name: string)
    requires prefix == PREFIX
    ensures "# " + prefix + name + " is not set\n" == "# CONFIG_" + name + " is not set\n"
  {
  }

  lemma SetPrinted(head: string)
    ensures head + "=" + "m" + "\n" == head + "=m\n" && head + "=" + "y" + "\n" == head + "=y\n"
  {
  }

  lemma QuotedPrinted(head: string, e: string)
    ensures head + ("\"" + e + "\"") + "\n" == head + "\"" + e + "\"\n"
  {
  }

  /** The titles of menus and comments stand alone in a block of comment lines, and the end of a menu repeats its
      title. */
  lemma TitlesWritten(m: Menu, d: ConfFile.Content, main: string)
    ensures ConfFile.EventText(W.Heading(m), d) == "\n#\n# " + d.title(m) + "\n#\n"
    ensures ConfFile.EventText(W.EndOf(m), d) == "# end of " + d.title(m) + "\n"
    ensures ConfFile.EventText(W.Blank, d) == "\n"
    ensures ConfFile.NOTICE == "# Automatically generated file; DO NOT EDIT."
    ensures ConfFile.Header(main) == "#\n" + ConfFile.NOTICE + "\n# " + main + "\n#\n"
  {
    TitleBlock("\n#\n", d.title(m));
    NoticeBlock(ConfFile.NOTICE, main);
  }

  lemma TitleBlock(before: string, title: string)
    ensures before + ("# " + title + "\n" + "#\n") == before + "# " + title + "\n#\n"
  {
  }

  lemma NoticeBlock(notice: string, main: string)
    ensures "#\n" + (notice + "\n") + ("# " + main + "\n" + "#\n") == "#\n" + notice + "\n# " + main + "\n#\n"
  {
    var head := "#\n" + notice;
    TitleBlock(head + "\n", main);
    assert head + "\n" + "# " == head + "\n# ";
  }

  // ---------- other lines ----------

  /** Symbols that do not exist are skipped, and so is every line that begins in another way. */
  lemma UnknownLine(typeOf: string -> SymType, name: string, value: string)
    requires PlainName(name) && OneLine(value) && typeOf(name) == Unknown
    ensures ReadFile(typeOf, Assignment(name, value) + "\n") == []
  {
    AssignmentLine(typeOf, name, value);
  }

  lemma OtherLine(typeOf: string -> SymType, line: string)
    requires OneLine(line) && (line == "" || (line[0] != '#' && line[0] != 'C'))
    ensures ReadFile(typeOf, line + "\n") == []
  {
    ConfFile.OneLineReads(typeOf, line);
    assert PREFIX[0] == 'C';
    assert line != "" ==> (line + "\n")[0] == line[0];
  }

  /** Lines are read one after the other. */
  lemma LinesInOrder(typeOf: string -> SymType, line: string, more: string)
    requires OneLine(line)
    ensures ReadFile(typeOf, line + "\n" + more) == ReadFile(typeOf, line + "\n") + ReadFile(typeOf, more)
  {
    ReadFirst(typeOf, line, more);
    ConfFile.OneLineReads(typeOf, line);
  }
}
