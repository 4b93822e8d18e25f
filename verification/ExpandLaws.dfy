/** What a reference stands for: where its arguments go, and which of the things of its name it finds. */
module ExpandLaws {
  import opened Wrappers
  import opened CStrings
  import opened Preprocess
  import Comparison

  // ---------- the text of a reference ----------

  /** From position i on, inside depth parentheses, the parentheses match and every comma is inside of some. */
  predicate Part(s: string, i: nat, depth: nat)
    requires i <= |s|
    decreases |s| - i
  {
    if i == |s| then depth == 0
    else if s[i] == '(' then Part(s, i + 1, depth + 1)
    else if s[i] == ')' then depth > 0 && Part(s, i + 1, depth - 1)
    else (s[i] == ',' ==> depth > 0) && Part(s, i + 1, depth)
  }

  /** A reference between two texts: a name, and behind commas its arguments. */
  function Text(pre: string, parts: seq<string>, post: string): string
    requires parts != []
  {
    pre + ("$(" + JoinWithCommas(parts) + (")" + post))
  }

  predicate NoDollar(s: string) {
    forall i :: 0 <= i < |s| ==> s[i] != '$'
  }

  /** Neither digit nor blank nor sign. */
  predicate NotNumeric(c: char) {
    DigitValue(c) >= 10 && !IsSpace(c) && c != '-' && c != '+'
  }

  /** The clause is no number of an argument: it has arguments itself, or a character that no number has, or there
      are no arguments around. */
  predicate NoNumber(parts: seq<string>, argv: seq<string>) {
    |parts| > 1 || argv == [] || (|parts| == 1 && exists i :: 0 <= i < |parts[0]| && NotNumeric(parts[0][i]))
  }

  /** The parts expand to these values. */
  ghost predicate Given(w: World, vars: seq<Variable>, parts: seq<string>, values: seq<string>, argv: seq<string>) {
    |parts| == |values| && forall k :: 0 <= k < |parts| ==>
      Part(parts[k], 0, 0) && ExpandAll(w, vars, parts[k], argv) == Done(values[k])
  }

  /** No variable has the name. */
  predicate NoVariable(vars: seq<Variable>, name: string) {
    forall i :: 0 <= i < |vars| ==> vars[i].name != name
  }

  /** The i-th variable is the first of the name. */
  predicate FirstNamed(vars: seq<Variable>, name: string, i: nat) {
    i < |vars| && vars[i].name == name && forall j :: 0 <= j < i ==> vars[j].name != name
  }

  // ---------- taking the reference apart ----------

  predicate Parts(parts: seq<string>) {
    parts != [] && forall k :: 0 <= k < |parts| ==> Part(parts[k], 0, 0)
  }

  lemma JoinStarts(parts: seq<string>, at: nat)
    requires parts != [] && at <= |parts[0]|
    ensures var c := JoinWithCommas(parts);
      |c| >= |parts[0]| && (at < |parts[0]| ==> c[at] == parts[0][at]) && c[..|parts[0]|] == parts[0]
      && (|parts| == 1 ==> |c| == |parts[0]|)
      && (|parts| > 1 ==> |c| > |parts[0]| && c[|parts[0]|] == ',' && c[|parts[0]| + 1..] == JoinWithCommas(parts[1..]))
  {
  }

  /** The clause is split again into the parts that it was made of. */
  lemma {:induction false} SplitParts(parts: seq<string>, c: string, prev: nat, p: nat, depth: nat)
    requires Parts(parts) && prev <= p <= |c| && c[prev..] == JoinWithCommas(parts)
    requires p - prev <= |parts[0]| && Part(parts[0], p - prev, depth)
    ensures SplitFrom(c, prev, p, depth) == parts
    decreases |c| - p
  {
    var at := p - prev;
    JoinStarts(parts, at);
    assert forall k :: 0 <= k < |c| - prev ==> c[prev..][k] == c[prev + k];
    if at < |parts[0]| {
      assert c[p] == parts[0][at];
      var inner := if c[p] == '(' then depth + 1 else if c[p] == ')' then depth - 1 else depth;
      SplitParts(parts, c, prev, p + 1, inner);
    } else if |parts| == 1 {
      assert c[prev..] == parts[0];
    } else {
      assert c[p] == ',';
      assert c[p + 1..] == c[prev..][at + 1..];
      assert c[prev..p] == c[prev..][..at];
      SplitParts(parts[1..], c, p + 1, p + 1, 0);
    }
  }

  /** The reference ends at the parenthesis behind its clause. */
  lemma {:induction false} ClosingParts(parts: seq<string>, s: string, end: nat, prev: nat, p: nat, depth: nat)
    requires Parts(parts) && prev <= p <= end < |s| && s[end] == ')' && s[prev..end] == JoinWithCommas(parts)
    requires p - prev <= |parts[0]| && Part(parts[0], p - prev, depth)
    ensures Closing(s, p, depth) == end
    decreases end - p
  {
    var (at, c) := (p - prev, s[prev..end]);
    JoinStarts(parts, at);
    if at < |parts[0]| {
      assert s[p] == c[at] == parts[0][at];
      var inner := if s[p] == '(' then depth + 1 else if s[p] == ')' then depth - 1 else depth;
      ClosingParts(parts, s, end, prev, p + 1, inner);
    } else if |parts| > 1 {
      assert s[p] == c[at] == ',';
      assert s[p + 1..end] == c[at + 1..];
      ClosingParts(parts[1..], s, end, p + 1, p + 1, 0);
    }
  }

  // ---------- numbers ----------

  lemma {:induction false} ScanStops(c: string, i: nat, acc: nat, at: nat)
    requires i <= at < |c| && DigitValue(c[at]) >= 10
    ensures ScanDigits(c, i, 10, acc).1 <= at
    decreases at - i
  {
    if i < at && DigitValue(c[i]) < 10 {
      ScanStops(c, i + 1, acc * 10 + DigitValue(c[i]), at);
    }
  }

  lemma {:induction false} SpacesStop(c: string, i: nat, at: nat)
    requires i <= at < |c| && !IsSpace(c[at])
    ensures SkipSpaces(c, i) <= at
    decreases at - i
  {
    if i < at && IsSpace(c[i]) {
      SpacesStop(c, i + 1, at);
    }
  }

  lemma OtherCharacter(c: string, at: nat)
    requires at < |c| && NotNumeric(c[at])
    ensures StrToULL(c, 10).1 < |c|
  {
    SpacesStop(c, 0, at);
    var i := SkipSpaces(c, 0);
    var j := if c[i] == '-' || c[i] == '+' then i + 1 else i;
    ScanStops(c, j, 0, at);
  }

  lemma NoArgument(parts: seq<string>, argv: seq<string>)
    requires parts != [] && NoNumber(parts, argv)
    ensures !IsArgument(JoinWithCommas(parts), argv)
  {
    var c := JoinWithCommas(parts);
    if |parts| > 1 {
      JoinStarts(parts, 0);
      OtherCharacter(c, |parts[0]|);
    } else if argv != [] {
      var i :| 0 <= i < |parts[0]| && NotNumeric(parts[0][i]);
      OtherCharacter(c, i);
    }
  }

  // ---------- one reference ----------

  /** The text with the reference replaced by what it stands for. */
  function Around(pre: string, middle: Outcome, post: Outcome): Outcome {
    if middle.Done? && post.Done? then Done(pre + middle.value + post.value) else Error
  }

  lemma TextExpands(w: World, vars: seq<Variable>, pre: string, parts: seq<string>, post: string, argv: seq<string>)
    requires Parts(parts) && NoDollar(pre)
    ensures ExpandAll(w, vars, Text(pre, parts, post), argv) ==
      Around(pre, Eval(w, vars, JoinWithCommas(parts), argv), ExpandAll(w, vars, post, argv))
  {
    var (c, tail) := (JoinWithCommas(parts), ")" + post);
    var ref := "$(" + c + tail;
    assert ref[2..|c| + 2] == c;
    ClosingParts(parts, ref, |c| + 2, 2, 2, 0);
    ReferenceExpands(w, vars, ref, Never, argv, |c| + 2);
    assert ref[2..|c| + 2] == c && ref[|c| + 3..] == post;
    ExpandPlain(w, vars, pre, ref, argv);
    var (e, rest) := (Eval(w, vars, c, argv), Expand(w, vars, post, Never, argv));
    if e.Done? {
      ThenAssociates(pre, e.value, rest);
    }
  }

  lemma {:induction false} ArgsGiven(
    w: World, vars: seq<Variable>, parts: seq<string>, values: seq<string>, argv: seq<string>, n: nat)
    requires Given(w, vars, parts, values, argv) && forall p :: p in parts ==> |p| <= n
    ensures ExpandArgs(w, vars, parts, argv, n) == Some(values)
    decreases |parts|
  {
    if parts != [] {
      assert ExpandAll(w, vars, parts[0], argv) == Done(values[0]);
      ArgsGiven(w, vars, parts[1..], values[1..], argv, n);
      assert [values[0]] + values[1..] == values;
    }
  }

  /** A reference means the call of what its first part expands to, on what the others expand to. */
  lemma Calls(
    w: World, vars: seq<Variable>, pre: string, parts: seq<string>, values: seq<string>, post: string,
    argv: seq<string>)
    requires Given(w, vars, parts, values, argv) && 0 < |parts| <= 16 && NoNumber(parts, argv) && NoDollar(pre)
    ensures ExpandAll(w, vars, Text(pre, parts, post), argv) ==
      Around(pre, Call(w, vars, values[0], values[1..]), ExpandAll(w, vars, post, argv))
  {
    var c := JoinWithCommas(parts);
    TextExpands(w, vars, pre, parts, post, argv);
    NoArgument(parts, argv);
    assert c[0..] == c;
    SplitParts(parts, c, 0, 0, 0);
    assert Split(c) == parts;
    assert ExpandAll(w, vars, parts[0], argv) == Done(values[0]);
    ArgsGiven(w, vars, parts[1..], values[1..], argv, |c|);
  }

  lemma {:induction false} LookupNone(vars: seq<Variable>, name: string)
    requires NoVariable(vars, name)
    ensures Lookup(vars, name) == |vars|
    decreases |vars|
  {
    if vars != [] {
      assert vars[0].name != name;
      LookupNone(vars[1..], name);
    }
  }

  lemma {:induction false} LookupFirst(vars: seq<Variable>, name: string, i: nat)
    requires FirstNamed(vars, name, i)
    ensures Lookup(vars, name) == i
    decreases i
  {
    if i > 0 {
      assert vars[0].name != name;
      LookupFirst(vars[1..], name, i - 1);
    }
  }

  /** Where no variable has the name, the built-in function gets the arguments, all of them and in order, and what it
      returns stands in the place of the reference. */
  lemma BuiltinGetsArguments(
    w: World, vars: seq<Variable>, pre: string, parts: seq<string>, values: seq<string>, post: string,
    argv: seq<string>)
    requires Given(w, vars, parts, values, argv) && 0 < |parts| <= 16 && NoNumber(parts, argv) && NoDollar(pre)
    requires NoVariable(vars, values[0]) && w.builtin(values[0], values[1..]).Some?
    ensures ExpandAll(w, vars, Text(pre, parts, post), argv) ==
      Around(pre, w.builtin(values[0], values[1..]).value, ExpandAll(w, vars, post, argv))
  {
    Calls(w, vars, pre, parts, values, post, argv);
    LookupNone(vars, values[0]);
  }

  /** Where there is no such function either, a name without arguments is that of an environment variable, and
      everything else is empty. */
  lemma EnvironmentLast(
    w: World, vars: seq<Variable>, pre: string, parts: seq<string>, values: seq<string>, post: string,
    argv: seq<string>)
    requires Given(w, vars, parts, values, argv) && 0 < |parts| <= 16 && NoNumber(parts, argv) && NoDollar(pre)
    requires NoVariable(vars, values[0]) && w.builtin(values[0], values[1..]).None?
    ensures ExpandAll(w, vars, Text(pre, parts, post), argv) ==
      var named := |parts| == 1 && values[0] != "" && w.env(values[0]).Some?;
      Around(pre, Done(if named then w.env(values[0]).value else ""), ExpandAll(w, vars, post, argv))
  {
    Calls(w, vars, pre, parts, values, post, argv);
    LookupNone(vars, values[0]);
  }

  /** A simple variable hides the function and the environment, and its value is not expanded again. */
  lemma SimpleIsItsValue(
    w: World, vars: seq<Variable>, pre: string, parts: seq<string>, values: seq<string>, post: string,
    argv: seq<string>, i: nat)
    requires Given(w, vars, parts, values, argv) && 0 < |parts| <= 16 && NoNumber(parts, argv) && NoDollar(pre)
    requires FirstNamed(vars, values[0], i) && vars[i].flavor.Simple?
    ensures ExpandAll(w, vars, Text(pre, parts, post), argv) ==
      if vars[i].count > 1000 || (vars[i].count > 0 && |parts| == 1) then Error
      else Around(pre, Done(vars[i].value), ExpandAll(w, vars, post, argv))
  {
    Calls(w, vars, pre, parts, values, post, argv);
    LookupFirst(vars, values[0], i);
  }

  /** A recursive one hides them too: its value is expanded with the arguments of the reference, and counts as one more
      expansion of the variable. With arguments it may be under way already, up to a thousand times. */
  lemma RecursiveExpandsAgain(
    w: World, vars: seq<Variable>, pre: string, parts: seq<string>, values: seq<string>, post: string,
    argv: seq<string>, i: nat)
    requires Given(w, vars, parts, values, argv) && 0 < |parts| <= 16 && NoNumber(parts, argv) && NoDollar(pre)
    requires FirstNamed(vars, values[0], i) && vars[i].flavor.Recursive?
    ensures var v := vars[i];
      var inner := vars[i := Variable(v.name, v.value, Recursive, v.count + 1)];
      ExpandAll(w, vars, Text(pre, parts, post), argv) ==
        if v.count > 1000 || (v.count > 0 && |parts| == 1) then Error
        else Around(pre, ExpandAll(w, inner, v.value, values[1..]), ExpandAll(w, vars, post, argv))
  {
    Calls(w, vars, pre, parts, values, post, argv);
    LookupFirst(vars, values[0], i);
    assert Deeper(vars[i]) == Variable(vars[i].name, vars[i].value, Recursive, vars[i].count + 1);
  }

  /** Inside of it, the number k stands for the k-th argument. */
  lemma NumberIsArgument(w: World, vars: seq<Variable>, pre: string, k: nat, post: string, argv: seq<string>)
    requires 0 < k <= |argv| && k <= ULLONG_MAX && NoDollar(pre)
    ensures ExpandAll(w, vars, pre + ("$(" + Comparison.Decimal(k) + (")" + post)), argv) ==
      Around(pre, Done(argv[k - 1]), ExpandAll(w, vars, post, argv))
  {
    var ds := Comparison.Decimal(k);
    Comparison.DecimalScans(k, 10);
    Comparison.DigitsAre(10, k);
    PartDigits(k, 0);
    assert JoinWithCommas([ds]) == ds;
    TextExpands(w, vars, pre, [ds], post, argv);
    assert IsArgument(ds, argv);
  }

  lemma {:induction false} PartDigits(k: nat, i: nat)
    requires i <= |Comparison.Decimal(k)|
    ensures Part(Comparison.Decimal(k), i, 0)
    decreases |Comparison.Decimal(k)| - i
  {
    var ds := Comparison.Decimal(k);
    if i < |ds| {
      Comparison.DigitsAre(10, k);
      var d :| 0 <= d < 10 && Comparison.Digits(10, k)[i] == Comparison.DigitChar(d);
      PartDigits(k, i + 1);
    }
  }

  /** A number beyond the arguments is looked up like any other name. */
  lemma NumberBeyond(w: World, vars: seq<Variable>, k: nat, argv: seq<string>)
    requires |argv| < k <= ULLONG_MAX && NoVariable(vars, Comparison.Decimal(k))
    requires w.builtin(Comparison.Decimal(k), []).None?
    ensures ExpandAll(w, vars, "$(" + Comparison.Decimal(k) + ")", argv) ==
      Done(if w.env(Comparison.Decimal(k)).Some? then w.env(Comparison.Decimal(k)).value else "")
  {
    var ds := Comparison.Decimal(k);
    Comparison.DecimalScans(k, 10);
    Comparison.DigitsAre(10, k);
    PartDigits(k, 0);
    assert JoinWithCommas([ds]) == ds && "" + ("$(" + ds + (")" + "")) == "$(" + ds + ")";
    TextExpands(w, vars, "", [ds], "", argv);
    assert !IsArgument(ds, argv);
    assert ds[0..] == ds;
    SplitParts([ds], ds, 0, 0, 0);
    DigitsStay(w, vars, k, argv);
    LookupNone(vars, ds);
    assert Split(ds)[1..] == [];
  }

  lemma DigitsStay(w: World, vars: seq<Variable>, k: nat, argv: seq<string>)
    ensures ExpandAll(w, vars, Comparison.Decimal(k), argv) == Done(Comparison.Decimal(k))
  {
    var ds := Comparison.Decimal(k);
    Comparison.DigitsAre(10, k);
    forall i | 0 <= i < |ds|
      ensures ds[i] != '$'
    {
      var d :| 0 <= d < 10 && Comparison.Digits(10, k)[i] == Comparison.DigitChar(d);
    }
    ExpandPlain(w, vars, ds, "", argv);
    assert ds + "" == ds;
  }

  /** The call of a function that the configuration defines: the argument with the number in its value takes the place
      of the number, and the value the place of the reference. */
  lemma MacroCall(
    w: World, vars: seq<Variable>, pre: string, parts: seq<string>, values: seq<string>, post: string,
    argv: seq<string>, i: nat, before: string, k: nat, after: string)
    requires Given(w, vars, parts, values, argv) && 1 < |parts| <= 16 && 0 < k < |parts|
    requires NoDollar(pre) && NoDollar(post) && NoDollar(before) && NoDollar(after)
    requires FirstNamed(vars, values[0], i) && vars[i].flavor.Recursive? && vars[i].count <= 1000
    requires vars[i].value == before + ("$(" + Comparison.Decimal(k) + (")" + after))
    ensures ExpandAll(w, vars, Text(pre, parts, post), argv) == Done(pre + (before + values[k] + after) + post)
  {
    var v := vars[i];
    var inner := vars[i := Variable(v.name, v.value, Recursive, v.count + 1)];
    RecursiveExpandsAgain(w, vars, pre, parts, values, post, argv, i);
    NumberIsArgument(w, inner, before, k, after, values[1..]);
    Stays(w, inner, after, values[1..]);
    Stays(w, vars, post, argv);
  }

  /** Text without references stays, with its parentheses and commas. */
  lemma Stays(w: World, vars: seq<Variable>, s: string, argv: seq<string>)
    requires NoDollar(s)
    ensures ExpandAll(w, vars, s, argv) == Done(s)
  {
    ExpandPlain(w, vars, s, "", argv);
    assert s + "" == s;
  }

  // ---------- what is an error, and what is no reference ----------

  /** More than fifteen arguments are an error. */
  lemma TooManyArguments(
    w: World, vars: seq<Variable>, pre: string, parts: seq<string>, post: string, argv: seq<string>)
    requires Parts(parts) && |parts| > 16 && NoDollar(pre)
    ensures ExpandAll(w, vars, Text(pre, parts, post), argv).Error?
  {
    var c := JoinWithCommas(parts);
    TextExpands(w, vars, pre, parts, post, argv);
    NoArgument(parts, argv);
    assert c[0..] == c;
    SplitParts(parts, c, 0, 0, 0);
  }

  /** So is a name or an argument that is one. */
  lemma PartIsError(
    w: World, vars: seq<Variable>, pre: string, parts: seq<string>, post: string, argv: seq<string>, k: nat)
    requires Parts(parts) && NoNumber(parts, argv) && k < |parts| && NoDollar(pre)
    requires ExpandAll(w, vars, parts[k], argv).Error?
    ensures ExpandAll(w, vars, Text(pre, parts, post), argv).Error?
  {
    var c := JoinWithCommas(parts);
    TextExpands(w, vars, pre, parts, post, argv);
    NoArgument(parts, argv);
    assert c[0..] == c;
    SplitParts(parts, c, 0, 0, 0);
    assert Split(c) == parts;
    if k > 0 {
      assert parts[k] == parts[1..][k - 1];
      PartFails(w, vars, parts[1..], argv, |c|, parts[k]);
    }
  }

  /** So is a reference that does not end: no closing parenthesis is left for it. */
  lemma NeverClosed(w: World, vars: seq<Variable>, pre: string, s: string, argv: seq<string>)
    requires NoDollar(pre) && forall i :: 0 <= i < |s| ==> s[i] != ')'
    ensures ExpandAll(w, vars, pre + ("$(" + s), argv).Error?
  {
    var ref := "$(" + s;
    assert forall i :: 2 <= i < |ref| ==> ref[i] == s[i - 2];
    ReferenceExpands(w, vars, ref, Never, argv, |ref|);
    ExpandPlain(w, vars, pre, ref, argv);
  }

  /** A dollar without a parenthesis stands for itself. */
  lemma DollarStays(w: World, vars: seq<Variable>, pre: string, s: string, argv: seq<string>)
    requires NoDollar(pre) && (s == "" || s[0] != '(')
    ensures ExpandAll(w, vars, pre + ("$" + s), argv) == Around(pre, Done("$"), ExpandAll(w, vars, s, argv))
  {
    var t := "$" + s;
    assert t[1..] == s && (|t| > 1 ==> t[1] == s[0]);
    ExpandPlain(w, vars, pre, t, argv);
    var rest := Expand(w, vars, s, Never, argv);
    assert Expand(w, vars, t, Never, argv) == Then(Done("$"), rest);
    ThenAssociates(pre, "$", rest);
  }

  /** A token ends in front of the first character, outside of its references, that ends tokens. */
  lemma {:induction false} TokenEnds(
    w: World, vars: seq<Variable>, token: string, rest: string, stop: char -> bool, argv: seq<string>)
    requires NoDollar(token) && (forall i :: 0 <= i < |token| ==> !stop(token[i]))
    requires rest == "" || (stop(rest[0]) && rest[0] != '$')
    ensures Expand(w, vars, token + rest, stop, argv) == Upto(token, rest)
    decreases |token|
  {
    if token == "" {
      assert token + rest == rest;
    } else {
      var s := token + rest;
      assert s[0] == token[0] && s[1..] == token[1..] + rest;
      TokenEnds(w, vars, token[1..], rest, stop, argv);
      assert [token[0]] + token[1..] == token;
    }
  }
}
