/** Macro expansion: variables and functions in strings (preprocess.c). */
module Preprocess {
  import opened Wrappers
  import opened CStrings

  datatype Flavor = Simple | Recursive

  /** count is exp_count: how many expansions of the variable are under way. */
  datatype Variable = Variable(name: string, value: string, flavor: Flavor, count: nat)

  /** Error stands for pperror, which ends the program. */
  datatype Outcome = Done(value: string) | Error

  /** An expansion that may stop in front of a token separator. */
  datatype Partial = Upto(value: string, rest: string) | Failed

  /** What lies outside: the built-in functions, which may fail or be unknown, and the environment. */
  datatype World = World(builtin: (string, seq<string>) -> Option<Outcome>, env: string -> Option<string>)

  const MAX_ARGS: nat := 16
  const MAX_DEPTH: nat := 1000

  // ---------- the measure ----------

  ghost function Room(v: Variable): nat {
    if v.count <= MAX_DEPTH then MAX_DEPTH + 1 - v.count else 0
  }

  /** How many more expansions may be nested. */
  ghost function Fuel(vars: seq<Variable>): nat {
    if vars == [] then 0 else Room(vars[0]) + Fuel(vars[1..])
  }

  function Deeper(v: Variable): Variable {
    v.(count := v.count + 1)
  }

  lemma {:induction false} DeeperUsesFuel(vars: seq<Variable>, i: nat)
    requires i < |vars| && vars[i].count <= MAX_DEPTH
    ensures Fuel(vars[i := Deeper(vars[i])]) < Fuel(vars)
  {
    if i == 0 {
      assert vars[0 := Deeper(vars[0])][1..] == vars[1..];
    } else {
      DeeperUsesFuel(vars[1..], i - 1);
      assert vars[i := Deeper(vars[i])][1..] == vars[1..][i - 1 := Deeper(vars[i])];
    }
  }

  // ---------- references and clauses ----------

  /** variable_lookup: the first variable of that name, or the number of variables. */
  function Lookup(vars: seq<Variable>, name: string): (i: nat)
    ensures i <= |vars| && (i < |vars| ==> vars[i].name == name)
  {
    if vars == [] || vars[0].name == name then 0 else 1 + Lookup(vars[1..], name)
  }

  /** The position of the parenthesis that closes a reference, from position i on inside nest more parentheses. */
  function Closing(s: string, i: nat, nest: nat): (q: nat)
    requires i <= |s|
    ensures i <= q <= |s| && (q < |s| ==> s[q] == ')')
    decreases |s| - i
  {
    if i == |s| then i
    else if s[i] == '(' then Closing(s, i + 1, nest + 1)
    else if s[i] == ')' then if nest == 0 then i else Closing(s, i + 1, nest - 1)
    else Closing(s, i + 1, nest)
  }

  /** The nesting depth after a character. */
  function Nest(c: char, nest: int): int {
    if c == '(' then nest + 1 else if c == ')' then nest - 1 else nest
  }

  /** The parts of a clause between the commas at depth 0: those from prev on, when p has been reached. */
  function SplitFrom(c: string, prev: nat, p: nat, nest: int): (r: seq<string>)
    requires prev <= p <= |c|
    ensures r != [] && forall part :: part in r ==> |part| <= |c|
    decreases |c| - p
  {
    if p == |c| then [c[prev..]]
    else if nest == 0 && c[p] == ',' then [c[prev..p]] + SplitFrom(c, p + 1, p + 1, nest)
    else SplitFrom(c, prev, p + 1, Nest(c[p], nest))
  }

  function Split(c: string): (r: seq<string>)
    ensures r != [] && forall part :: part in r ==> |part| <= |c|
  {
    SplitFrom(c, 0, 0, 0)
  }

  function JoinWithCommas(parts: seq<string>): string
    requires parts != []
  {
    if |parts| == 1 then parts[0] else parts[0] + "," + JoinWithCommas(parts[1..])
  }

  /** Splitting loses nothing. */
  lemma {:induction false} SplitJoins(c: string, prev: nat, p: nat, nest: int)
    requires prev <= p <= |c|
    ensures JoinWithCommas(SplitFrom(c, prev, p, nest)) == c[prev..]
    decreases |c| - p
  {
    if p < |c| {
      if nest == 0 && c[p] == ',' {
        var r := SplitFrom(c, p + 1, p + 1, nest);
        SplitJoins(c, p + 1, p + 1, nest);
        assert ([c[prev..p]] + r)[1..] == r;
        assert c[prev..] == c[prev..p] + "," + c[p + 1..];
      } else {
        SplitJoins(c, prev, p + 1, Nest(c[p], nest));
      }
    }
  }

  /** The text has a comma outside of all parentheses. */
  predicate HasComma(part: string, i: nat, nest: int)
    requires i <= |part|
    decreases |part| - i
  {
    i < |part| && ((nest == 0 && part[i] == ',') || HasComma(part, i + 1, Nest(part[i], nest)))
  }

  /** The text from prev to p, followed by anything, has its first such comma no earlier than p. */
  ghost predicate NoCommaYet(c: string, prev: nat, p: nat, nest: int)
    requires prev <= p <= |c|
  {
    forall e :: p <= e <= |c| ==> HasComma(c[prev..e], 0, 0) == HasComma(c[prev..e], p - prev, nest)
  }

  lemma {:induction false} SplitExactFrom(c: string, prev: nat, p: nat, nest: int)
    requires prev <= p <= |c| && NoCommaYet(c, prev, p, nest)
    ensures forall part :: part in SplitFrom(c, prev, p, nest) ==> !HasComma(part, 0, 0)
    decreases |c| - p
  {
    if p == |c| {
      assert c[prev..] == c[prev..|c|];
    } else if nest == 0 && c[p] == ',' {
      SplitExactFrom(c, p + 1, p + 1, nest);
    } else {
      forall e | p + 1 <= e <= |c|
        ensures HasComma(c[prev..e], 0, 0) == HasComma(c[prev..e], p + 1 - prev, Nest(c[p], nest))
      {
        assert c[prev..e][p - prev] == c[p];
      }
      SplitExactFrom(c, prev, p + 1, Nest(c[p], nest));
    }
  }

  /** The parts are the finest split at such commas: together they are the clause, and no part has one. */
  lemma SplitExact(c: string)
    ensures JoinWithCommas(Split(c)) == c
    ensures forall part :: part in Split(c) ==> !HasComma(part, 0, 0)
  {
    SplitJoins(c, 0, 0, 0);
    SplitExactFrom(c, 0, 0, 0);
    assert c[0..] == c;
  }

  // ---------- the expansion ----------

  /** __expand_string. stop tells the characters in front of which a token ends. */
  ghost function Expand(w: World, vars: seq<Variable>, s: string, stop: char -> bool, argv: seq<string>): Partial
    decreases Fuel(vars), |s|, 1
  {
    if s == "" then Upto("", "")
    else if s[0] == '$' then
      if |s| > 1 && s[1] == '(' then
        var q := Closing(s, 2, 0);
        if q == |s| then Failed
        else Then(Eval(w, vars, s[2..q], argv), Expand(w, vars, s[q + 1..], stop, argv))
      else Then(Done("$"), Expand(w, vars, s[1..], stop, argv))
    else if stop(s[0]) then Upto("", s)
    else Then(Done([s[0]]), Expand(w, vars, s[1..], stop, argv))
  }

  function Then(first: Outcome, second: Partial): Partial {
    if first.Done? && second.Upto? then Upto(first.value + second.value, second.rest) else Failed
  }

  function Never(c: char): bool { false }

  /** expand_string_with_args. */
  ghost function ExpandAll(w: World, vars: seq<Variable>, s: string, argv: seq<string>): Outcome
    decreases Fuel(vars), |s|, 2
  {
    match Expand(w, vars, s, Never, argv)
    case Failed => Error
    case Upto(v, _) => Done(v)
  }

  /** The arguments of a call, in order. None when one of them fails. */
  ghost function ExpandArgs(w: World, vars: seq<Variable>, parts: seq<string>, argv: seq<string>, n: nat): Option<seq<string>>
    requires forall p :: p in parts ==> |p| <= n
    decreases Fuel(vars), n, 3, |parts|
  {
    if parts == [] then Some([])
    else
      match ExpandAll(w, vars, parts[0], argv)
      case Error => None
      case Done(v) =>
        match ExpandArgs(w, vars, parts[1..], argv, n)
        case None => None
        case Some(rest) => Some([v] + rest)
  }

  /** A number that names an argument of the call around. */
  predicate IsArgument(c: string, argv: seq<string>) {
    var (n, tail, _) := StrToULL(c, 10);
    tail == |c| && 0 < n <= |argv|
  }

  /** eval_clause. */
  ghost function Eval(w: World, vars: seq<Variable>, c: string, argv: seq<string>): Outcome
    decreases Fuel(vars), |c|, 4
  {
    if IsArgument(c, argv) then Done(argv[StrToULL(c, 10).0 - 1])
    else
      var parts := Split(c);
      if |parts| > MAX_ARGS then Error
      else
        var name := ExpandAll(w, vars, parts[0], argv);
        var args := ExpandArgs(w, vars, parts[1..], argv, |c|);
        if name.Error? || args.None? then Error else Call(w, vars, name.value, args.value)
  }

  /** Variables hide built-in functions, which hide the environment. */
  ghost function Call(w: World, vars: seq<Variable>, name: string, args: seq<string>): Outcome
    decreases Fuel(vars), 0, 0
  {
    var i := Lookup(vars, name);
    if i < |vars| then
      if args == [] && vars[i].count > 0 then Error
      else if vars[i].count > MAX_DEPTH then Error
      else if vars[i].flavor.Simple? then Done(vars[i].value)
      else
        DeeperUsesFuel(vars, i);
        ExpandAll(w, vars[i := Deeper(vars[i])], vars[i].value, args)
    else Outside(w, name, args)
  }

  function Outside(w: World, name: string, args: seq<string>): Outcome {
    var b := w.builtin(name, args);
    if b.Some? then b.value
    else if args == [] && name != "" && w.env(name).Some? then Done(w.env(name).value)
    else Done("")
  }

  // ---------- the counters only ever prevent a result ----------

  /** The same variables, with fewer expansions under way. */
  ghost predicate Fewer(v1: seq<Variable>, v2: seq<Variable>) {
    |v1| == |v2| && forall i :: 0 <= i < |v1| ==> v1[i].(count := 0) == v2[i].(count := 0) && v1[i].count <= v2[i].count
  }

  lemma {:induction false} LookupFewer(v1: seq<Variable>, v2: seq<Variable>, name: string)
    requires Fewer(v1, v2)
    ensures Lookup(v1, name) == Lookup(v2, name)
  {
    if v1 != [] {
      assert v1[0].name == v1[0].(count := 0).name == v2[0].(count := 0).name == v2[0].name;
      if v1[0].name != name {
        LookupFewer(v1[1..], v2[1..], name);
      }
    }
  }

  /** A successful expansion gives the same result whenever fewer expansions are under way. */
  lemma {:induction false} ExpandFewer(w: World, v1: seq<Variable>, v2: seq<Variable>, s: string, stop: char -> bool, argv: seq<string>)
    requires Fewer(v1, v2) && Expand(w, v2, s, stop, argv).Upto?
    ensures Expand(w, v1, s, stop, argv) == Expand(w, v2, s, stop, argv)
    decreases Fuel(v2), |s|, 1
  {
    if s != "" {
      if s[0] == '$' {
        if |s| > 1 && s[1] == '(' {
          var q := Closing(s, 2, 0);
          EvalFewer(w, v1, v2, s[2..q], argv);
          ExpandFewer(w, v1, v2, s[q + 1..], stop, argv);
        } else {
          ExpandFewer(w, v1, v2, s[1..], stop, argv);
        }
      } else if !stop(s[0]) {
        ExpandFewer(w, v1, v2, s[1..], stop, argv);
      }
    }
  }

  lemma {:induction false} ArgsFewer(w: World, v1: seq<Variable>, v2: seq<Variable>, parts: seq<string>, argv: seq<string>, n: nat)
    requires Fewer(v1, v2) && (forall p :: p in parts ==> |p| <= n) && ExpandArgs(w, v2, parts, argv, n).Some?
    ensures ExpandArgs(w, v1, parts, argv, n) == ExpandArgs(w, v2, parts, argv, n)
    decreases Fuel(v2), n, 3, |parts|
  {
    if parts != [] {
      ExpandFewer(w, v1, v2, parts[0], Never, argv);
      ArgsFewer(w, v1, v2, parts[1..], argv, n);
    }
  }

  lemma {:induction false} EvalFewer(w: World, v1: seq<Variable>, v2: seq<Variable>, c: string, argv: seq<string>)
    requires Fewer(v1, v2) && Eval(w, v2, c, argv).Done?
    ensures Eval(w, v1, c, argv) == Eval(w, v2, c, argv)
    decreases Fuel(v2), |c|, 4
  {
    if !IsArgument(c, argv) {
      var parts := Split(c);
      ExpandFewer(w, v1, v2, parts[0], Never, argv);
      ArgsFewer(w, v1, v2, parts[1..], argv, |c|);
      var name := ExpandAll(w, v2, parts[0], argv).value;
      var args := ExpandArgs(w, v2, parts[1..], argv, |c|).value;
      CallFewer(w, v1, v2, name, args);
    }
  }

  lemma {:induction false} CallFewer(w: World, v1: seq<Variable>, v2: seq<Variable>, name: string, args: seq<string>)
    requires Fewer(v1, v2) && Call(w, v2, name, args).Done?
    ensures Call(w, v1, name, args) == Call(w, v2, name, args)
    decreases Fuel(v2), 0, 0
  {
    LookupFewer(v1, v2, name);
    var i := Lookup(v2, name);
    if i < |v2| {
      assert v1[i].(count := 0) == v2[i].(count := 0);
      if v2[i].flavor.Recursive? {
        DeeperUsesFuel(v2, i);
        ExpandFewer(w, v1[i := Deeper(v1[i])], v2[i := Deeper(v2[i])], v2[i].value, Never, args);
      }
    }
  }

  // ---------- self-reference ----------

  /** Free of the characters that mean something to the expansion. */
  predicate Plain(s: string) {
    forall i :: 0 <= i < |s| ==> s[i] != '$' && s[i] != '(' && s[i] != ')' && s[i] != ','
  }

  lemma {:induction false} ClosingPlain(name: string, tail: string, i: nat)
    requires Plain(name) && i <= |name| && tail != "" && tail[0] == ')'
    ensures Closing("$(" + name + tail, i + 2, 0) == |name| + 2
    decreases |name| - i
  {
    var s := "$(" + name + tail;
    if i < |name| {
      assert s[i + 2] == name[i];
      ClosingPlain(name, tail, i + 1);
    } else {
      assert s[i + 2] == ')';
    }
  }

  lemma {:induction false} SplitPlain(name: string, p: nat)
    requires Plain(name) && p <= |name|
    ensures SplitFrom(name, 0, p, 0) == [name]
    decreases |name| - p
  {
    if p < |name| {
      SplitPlain(name, p + 1);
    } else {
      assert name[0..] == name;
    }
  }

  lemma ExpandCharacter(w: World, vars: seq<Variable>, c: char, rest: string, argv: seq<string>)
    requires c != '$'
    ensures Expand(w, vars, [c] + rest, Never, argv) == Then(Done([c]), Expand(w, vars, rest, Never, argv))
  {
    assert ([c] + rest)[1..] == rest;
  }

  lemma ThenNothing(r: Partial)
    ensures Then(Done(""), r) == r
  {
    if r.Upto? {
      assert "" + r.value == r.value;
    }
  }

  /** Text without references expands to itself. */
  lemma {:induction false} ExpandPlain(w: World, vars: seq<Variable>, pre: string, post: string, argv: seq<string>)
    requires forall j :: 0 <= j < |pre| ==> pre[j] != '$'
    ensures Expand(w, vars, pre + post, Never, argv) == Then(Done(pre), Expand(w, vars, post, Never, argv))
    decreases |pre|
  {
    if pre == "" {
      assert pre + post == post;
      ThenNothing(Expand(w, vars, post, Never, argv));
    } else {
      assert pre + post == [pre[0]] + (pre[1..] + post);
      ExpandCharacter(w, vars, pre[0], pre[1..] + post, argv);
      ExpandPlain(w, vars, pre[1..], post, argv);
      ThenAssociates([pre[0]], pre[1..], Expand(w, vars, post, Never, argv));
      assert [pre[0]] + pre[1..] == pre;
    }
  }

  /** Somewhere in the text, in whatever name or argument, stands a reference whose clause is a hit. Numbers of
      arguments of the call around are no references. */
  ghost predicate Contains(s: string, argv: seq<string>, hit: string -> bool)
    decreases |s|, 1
  {
    s != "" &&
    if s[0] == '$' && |s| > 1 && s[1] == '(' then
      var q := Closing(s, 2, 0);
      q < |s| && (ClauseContains(s[2..q], argv, hit) || Contains(s[q + 1..], argv, hit))
    else Contains(s[1..], argv, hit)
  }

  ghost predicate ClauseContains(c: string, argv: seq<string>, hit: string -> bool)
    decreases |c|, 2
  {
    !IsArgument(c, argv) && (hit(c) || exists p :: p in Split(c) && Contains(p, argv, hit))
  }

  /** Every hit is an error. */
  ghost predicate HitsFail(w: World, vars: seq<Variable>, argv: seq<string>, hit: string -> bool) {
    forall c :: hit(c) && !IsArgument(c, argv) ==> Eval(w, vars, c, argv).Error?
  }

  /** Text fails that contains a reference that fails, in any place and at any depth. */
  lemma {:induction false} ContainedFails(w: World, vars: seq<Variable>, s: string, argv: seq<string>, hit: string -> bool)
    requires Contains(s, argv, hit) && HitsFail(w, vars, argv, hit)
    ensures Expand(w, vars, s, Never, argv).Failed?
    decreases |s|, 1
  {
    if s[0] == '$' && |s| > 1 && s[1] == '(' {
      var q := Closing(s, 2, 0);
      if ClauseContains(s[2..q], argv, hit) {
        ClauseFails(w, vars, s[2..q], argv, hit);
      } else {
        ContainedFails(w, vars, s[q + 1..], argv, hit);
      }
    } else {
      ContainedFails(w, vars, s[1..], argv, hit);
    }
  }

  lemma {:induction false} ClauseFails(w: World, vars: seq<Variable>, c: string, argv: seq<string>, hit: string -> bool)
    requires ClauseContains(c, argv, hit) && HitsFail(w, vars, argv, hit)
    ensures Eval(w, vars, c, argv).Error?
    decreases |c|, 2
  {
    if !hit(c) {
      var parts := Split(c);
      var p :| p in parts && Contains(p, argv, hit);
      ContainedFails(w, vars, p, argv, hit);
      if p != parts[0] {
        assert parts == [parts[0]] + parts[1..];
        PartFails(w, vars, parts[1..], argv, |c|, p);
      }
    }
  }

  lemma {:induction false} PartFails(
    w: World, vars: seq<Variable>, parts: seq<string>, argv: seq<string>, n: nat, p: string)
    requires (forall x :: x in parts ==> |x| <= n) && p in parts && Expand(w, vars, p, Never, argv).Failed?
    ensures ExpandArgs(w, vars, parts, argv, n).None?
    decreases |parts|
  {
    if parts[0] != p {
      PartFails(w, vars, parts[1..], argv, n, p);
    }
  }

  /** A reference, without arguments and at any depth, to a variable that is being expanded is an error. */
  lemma BusyReferenceFails(w: World, vars: seq<Variable>, s: string, argv: seq<string>, name: string)
    requires Plain(name) && Lookup(vars, name) < |vars| && vars[Lookup(vars, name)].count > 0
    requires Contains(s, argv, c => c == name)
    ensures Expand(w, vars, s, Never, argv).Failed?
  {
    if !IsArgument(name, argv) {
      EvalName(w, vars, name, argv);
    }
    ContainedFails(w, vars, s, argv, c => c == name);
  }

  /** A variable whose value refers to the variable itself, without arguments and at any depth, has no expansion,
      whatever else is in the value. */
  lemma SelfReferenceFails(w: World, vars: seq<Variable>, i: nat)
    requires i < |vars| && vars[i].flavor.Recursive? && Plain(vars[i].name) && Lookup(vars, vars[i].name) == i
    requires Contains(vars[i].value, [], c => c == vars[i].name)
    ensures Call(w, vars, vars[i].name, []).Error?
  {
    if vars[i].count == 0 {
      DeeperUsesFuel(vars, i);
      var inner := vars[i := Deeper(vars[i])];
      LookupFewer(vars, inner, vars[i].name);
      BusyReferenceFails(w, inner, vars[i].value, [], vars[i].name);
    }
  }

  /** The function that a clause calls. */
  function Head(c: string): string { Split(c)[0] }

  /** Variables that never get out of each other: the value of each, whatever its arguments, calls one of them. */
  ghost predicate NoWayOut(vars: seq<Variable>, names: set<string>) {
    forall n :: n in names ==>
      && Plain(n) && Lookup(vars, n) < |vars| && vars[Lookup(vars, n)].flavor.Recursive?
      && forall argv :: CallsOneOf(vars[Lookup(vars, n)].value, argv, names)
  }

  ghost predicate CallsOneOf(s: string, argv: seq<string>, names: set<string>) {
    Contains(s, argv, c => Head(c) in names)
  }

  lemma NoWayOutDeeper(vars: seq<Variable>, i: nat, names: set<string>)
    requires i < |vars| && NoWayOut(vars, names)
    ensures NoWayOut(vars[i := Deeper(vars[i])], names)
  {
    var inner := vars[i := Deeper(vars[i])];
    forall n | n in names
      ensures Lookup(inner, n) == Lookup(vars, n)
    {
      LookupFewer(vars, inner, n);
    }
  }

  /** Every such call is an error, with arguments or without: a chain of references that closes, directly or
      eventually, never expands. */
  lemma {:induction false} NoWayOutFails(
    w: World, vars: seq<Variable>, names: set<string>, name: string, args: seq<string>)
    requires NoWayOut(vars, names) && name in names
    ensures Call(w, vars, name, args).Error?
    decreases Fuel(vars)
  {
    var i := Lookup(vars, name);
    if vars[i].count <= MAX_DEPTH {
      DeeperUsesFuel(vars, i);
      var inner := vars[i := Deeper(vars[i])];
      NoWayOutDeeper(vars, i, names);
      forall c | Head(c) in names && !IsArgument(c, args)
        ensures Eval(w, inner, c, args).Error?
      {
        HeadExpands(w, inner, c, args);
        var rest := ExpandArgs(w, inner, Split(c)[1..], args, |c|);
        if rest.Some? {
          NoWayOutFails(w, inner, names, Head(c), rest.value);
        }
      }
      assert CallsOneOf(vars[i].value, args, names);
      ContainedFails(w, inner, vars[i].value, args, c => Head(c) in names);
    }
  }

  lemma HeadExpands(w: World, vars: seq<Variable>, c: string, argv: seq<string>)
    requires Plain(Head(c))
    ensures ExpandAll(w, vars, Head(c), argv) == Done(Head(c))
  {
    ExpandPlain(w, vars, Head(c), "", argv);
    assert Head(c) + "" == Head(c);
  }

  // ---------- what the text of a reference looks like ----------

  /** A reference is found behind any text without references. */
  lemma {:induction false} ContainedAfterText(pre: string, s: string, argv: seq<string>, hit: string -> bool)
    requires (forall j :: 0 <= j < |pre| ==> pre[j] != '$') && Contains(s, argv, hit)
    ensures Contains(pre + s, argv, hit)
    decreases |pre|
  {
    if pre == "" {
      assert pre + s == s;
    } else {
      assert (pre + s)[0] == pre[0] && (pre + s)[1..] == pre[1..] + s;
      ContainedAfterText(pre[1..], s, argv, hit);
    }
  }

  /** A clause without arguments is the name of what it refers to. */
  lemma EvalName(w: World, vars: seq<Variable>, name: string, argv: seq<string>)
    requires Plain(name) && !IsArgument(name, argv)
    ensures Eval(w, vars, name, argv) == Call(w, vars, name, [])
  {
    SplitPlain(name, 0);
    ExpandPlain(w, vars, name, "", argv);
    assert name + "" == name;
    assert ExpandAll(w, vars, name, argv) == Done(name);
  }

  /** The text of a reference to a plain name that is no number, behind text without references. */
  lemma CallsByText(s: string, pre: string, name: string, post: string, argv: seq<string>, names: set<string>)
    requires s == pre + ("$(" + name + (")" + post)) && forall j :: 0 <= j < |pre| ==> pre[j] != '$'
    requires Plain(name) && name in names && !IsNumber(name)
    ensures CallsOneOf(s, argv, names)
  {
    var hit := (c: string) => Head(c) in names;
    var tail := ")" + post;
    var ref := "$(" + name + tail;
    ClosingPlain(name, tail, 0);
    assert ref[2..|name| + 2] == name;
    SplitPlain(name, 0);
    assert Contains(ref, argv, hit);
    ContainedAfterText(pre, ref, argv, hit);
  }

  predicate IsNumber(c: string) {
    StrToULL(c, 10).1 == |c| && StrToULL(c, 10).0 > 0
  }

  /** v is the variable that its name stands for. */
  predicate Finds(vars: seq<Variable>, v: Variable) {
    Lookup(vars, v.name) < |vars| && vars[Lookup(vars, v.name)] == v
  }

  /** Two variables that refer to each other do not expand, although neither refers to itself. */
  lemma EventuallyFails(w: World, vars: seq<Variable>, a: Variable, b: Variable, pres: (string, string), posts: (string, string))
    requires Finds(vars, a) && Finds(vars, b) && a.flavor.Recursive? && b.flavor.Recursive?
    requires Plain(a.name) && Plain(b.name) && !IsNumber(a.name) && !IsNumber(b.name)
    requires forall j :: 0 <= j < |pres.0| ==> pres.0[j] != '$'
    requires forall j :: 0 <= j < |pres.1| ==> pres.1[j] != '$'
    requires a.value == pres.0 + ("$(" + b.name + (")" + posts.0))
    requires b.value == pres.1 + ("$(" + a.name + (")" + posts.1))
    ensures forall args :: Call(w, vars, a.name, args).Error? && Call(w, vars, b.name, args).Error?
  {
    var names := {a.name, b.name};
    forall argv
      ensures CallsOneOf(a.value, argv, names) && CallsOneOf(b.value, argv, names)
    {
      CallsByText(a.value, pres.0, b.name, posts.0, argv, names);
      CallsByText(b.value, pres.1, a.name, posts.1, argv, names);
    }
    assert NoWayOut(vars, names) by {
      forall n | n in names
        ensures Lookup(vars, n) < |vars| && vars[Lookup(vars, n)] in {a, b}
      {
        assert n == a.name || n == b.name;
      }
    }
    forall args
      ensures Call(w, vars, a.name, args).Error? && Call(w, vars, b.name, args).Error?
    {
      NoWayOutFails(w, vars, names, a.name, args);
      NoWayOutFails(w, vars, names, b.name, args);
    }
  }

  // ---------- the code ----------

  class Preprocessor {
    const world: World
    var vars: seq<Variable>     // variable_list

    constructor (w: World, variables: seq<Variable>)
      ensures world == w && vars == variables
    {
      world, vars := w, variables;
    }

    /** variable_expand. None stands for a NULL result: there is no such variable. */
    method VariableExpand(name: string, args: seq<string>) returns (r: Option<Outcome>)
      modifies this
      ensures r.None? <==> Lookup(old(vars), name) == |old(vars)|
      ensures r.Some? ==> r.value == Call(world, old(vars), name, args)
      ensures r.None? || r.value.Done? ==> vars == old(vars)
      decreases Fuel(vars), 0, 0
    {
      var i := Lookup(vars, name);
      if i == |vars| {
        return None;
      }
      if args == [] && vars[i].count > 0 {
        return Some(Error);
      }
      if vars[i].count > MAX_DEPTH {
        return Some(Error);
      }
      var value := vars[i].value;
      if vars[i].flavor.Simple? {
        return Some(Done(vars[i].value));
      }
      DeeperUsesFuel(vars, i);
      vars := vars[i := Deeper(vars[i])];
      var res := ExpandString(value, args);
      if res.Done? {
        vars := vars[i := vars[i].(count := vars[i].count - 1)];
      }
      r := Some(res);
    }

    /** The loop that separates the function name and the arguments of a clause. */
    method SplitClause(c: string) returns (parts: seq<string>)
      ensures parts == Split(c)
    {
      var prev, p, nest := 0, 0, 0;
      parts := [];
      while p < |c|
        invariant prev <= p <= |c| && Split(c) == parts + SplitFrom(c, prev, p, nest)
        decreases |c| - p
      {
        if nest == 0 && c[p] == ',' {
          parts := parts + [c[prev..p]];
          prev := p + 1;
        } else if c[p] == '(' {
          nest := nest + 1;
        } else if c[p] == ')' {
          nest := nest - 1;
        }
        p := p + 1;
      }
      parts := parts + [c[prev..]];
    }

    /** eval_clause. */
    method EvalClause(c: string, argv: seq<string>) returns (r: Outcome)
      modifies this
      ensures r == Eval(world, old(vars), c, argv)
      ensures r.Done? ==> vars == old(vars)
      decreases Fuel(vars), |c|, 4
    {
      if IsArgument(c, argv) {
        return Done(argv[StrToULL(c, 10).0 - 1]);
      }
      var parts := SplitClause(c);
      if |parts| > MAX_ARGS {
        return Error;
      }
      var name := ExpandString(parts[0], argv);
      if name.Error? {
        return Error;
      }
      var args := ExpandArguments(parts[1..], argv, |c|);
      if args.None? {
        return Error;
      }
      var v := VariableExpand(name.value, args.value);
      if v.Some? {
        return v.value;
      }
      r := Outside(world, name.value, args.value);
    }

    /** The loop over the arguments of a call. */
    method ExpandArguments(parts: seq<string>, argv: seq<string>, ghost n: nat) returns (args: Option<seq<string>>)
      requires forall p :: p in parts ==> |p| <= n
      modifies this
      ensures args == ExpandArgs(world, old(vars), parts, argv, n)
      ensures args.Some? ==> vars == old(vars)
      decreases Fuel(vars), n, 3, |parts|
    {
      if parts == [] {
        return Some([]);
      }
      var first := ExpandString(parts[0], argv);
      if first.Error? {
        return None;
      }
      var rest := ExpandArguments(parts[1..], argv, n);
      if rest.None? {
        return None;
      }
      args := Some([first.value] + rest.value);
    }

    /** expand_string_with_args. */
    method ExpandString(s: string, argv: seq<string>) returns (r: Outcome)
      modifies this
      ensures r == ExpandAll(world, old(vars), s, argv)
      ensures r.Done? ==> vars == old(vars)
      decreases Fuel(vars), |s|, 2
    {
      var p := ExpandUntil(s, Never, argv);
      r := if p.Upto? then Done(p.value) else Error;
    }

    /** __expand_string: in and p point into the string, out grows. */
    method ExpandUntil(s: string, stop: char -> bool, argv: seq<string>) returns (r: Partial)
      modifies this
      ensures r == Expand(world, old(vars), s, stop, argv)
      ensures r.Upto? ==> vars == old(vars)
      decreases Fuel(vars), |s|, 1
    {
      ghost var vars0 := vars;
      var in_, p, out := 0, 0, "";
      ReachStart(world, vars, s, stop, argv);
      while true
        invariant in_ <= p <= |s| && vars == vars0
        invariant Reached(world, vars0, s, stop, argv, p, out + s[in_..p])
        decreases |s| - p
      {
        if p < |s| && s[p] == '$' {
          var before := p;
          var expansion;
          expansion, p := ExpandDollar(s, p, stop, argv);
          if expansion.Error? {
            ReachError(world, vars0, s, stop, argv, before, out + s[in_..before], p);
            return Failed;
          }
          ReachReference(world, vars0, s, stop, argv, before, out + s[in_..before], p, expansion.value);
          out := out + s[in_..before] + expansion.value;
          in_ := p;
          assert out + s[in_..p] == out;
          continue;
        }
        if p == |s| || stop(s[p]) {
          break;
        }
        ReachCharacter(world, vars0, s, stop, argv, p, out + s[in_..p]);
        assert out + s[in_..p] + [s[p]] == out + s[in_..p + 1];
        p := p + 1;
      }
      ReachEnd(world, vars, s, stop, argv, p, out + s[in_..p]);
      r := Upto(out + s[in_..p], s[p..]);
    }

    /** expand_dollar_with_args. The string goes on at position q. */
    method ExpandDollar(s: string, p: nat, ghost stop: char -> bool, argv: seq<string>) returns (r: Outcome, q: nat)
      requires p < |s| && s[p] == '$'
      modifies this
      ensures r.Done? ==> vars == old(vars) && p < q <= |s|
      ensures q <= |s| && Steps(world, old(vars), s, stop, argv, p, r, q)
      decreases Fuel(vars), |s|, 0, 1
    {
      if p + 1 == |s| || s[p + 1] != '(' {
        r, q := Done("$"), p + 1;
        DollarAlone(world, vars, s, stop, argv, p);
        return;
      }
      q := FindClosing(s, p + 2);
      if q == |s| {
        r := Error;
        DollarUnclosed(world, vars, s, stop, argv, p, r, q);
        return;
      }
      r := ExpandReference(s, p, q, stop, argv);
      q := q + 1;
    }

    method ExpandReference(s: string, p: nat, q: nat, ghost stop: char -> bool, argv: seq<string>) returns (r: Outcome)
      requires p + 2 <= q < |s| && s[p] == '$' && s[p + 1] == '(' && q == Closing(s, p + 2, 0)
      modifies this
      ensures r.Done? ==> vars == old(vars)
      ensures Steps(world, old(vars), s, stop, argv, p, r, q + 1)
      decreases Fuel(vars), |s|, 0, 0
    {
      DollarReference(world, vars, s, stop, argv, p, q);
      r := EvalClause(s[p + 2..q], argv);
    }

    /** The loop for the closing parenthesis. */
    method FindClosing(s: string, start: nat) returns (q: nat)
      requires start <= |s|
      ensures q == Closing(s, start, 0)
    {
      var nest: nat := 0;
      q := start;
      while q < |s|
        invariant start <= q <= |s| && Closing(s, start, 0) == Closing(s, q, nest)
        decreases |s| - q
      {
        if s[q] == '(' {
          nest := nest + 1;
        } else if s[q] == ')' {
          if nest == 0 {
            break;
          }
          nest := nest - 1;
        }
        q := q + 1;
      }
    }
  }

  /** The text before position p of s expands to done. */
  ghost predicate Reached(
    w: World, vars: seq<Variable>, s: string, stop: char -> bool, argv: seq<string>, p: nat, done: string)
  {
    p <= |s| && forall at {:trigger Wanted(at)} :: Wanted(at) && at == p ==>
      Expand(w, vars, s, stop, argv) == Then(Done(done), Expand(w, vars, s[at..], stop, argv))
  }

  lemma ReachStart(w: World, vars: seq<Variable>, s: string, stop: char -> bool, argv: seq<string>)
    ensures Reached(w, vars, s, stop, argv, 0, "" + s[0..0])
  {
    var r := Expand(w, vars, s, stop, argv);
    assert s[0..] == s && "" + s[0..0] == "";
    assert r.Upto? ==> "" + r.value == r.value;
  }

  lemma ReachCharacter(
    w: World, vars: seq<Variable>, s: string, stop: char -> bool, argv: seq<string>, p: nat, done: string)
    requires Reached(w, vars, s, stop, argv, p, done) && p < |s| && s[p] != '$' && !stop(s[p])
    ensures Reached(w, vars, s, stop, argv, p + 1, done + [s[p]])
  {
    assert Wanted(p);
    assert s[p..][1..] == s[p + 1..];
    ThenAssociates(done, [s[p]], Expand(w, vars, s[p + 1..], stop, argv));
  }

  lemma ReachReference(
    w: World, vars: seq<Variable>, s: string, stop: char -> bool, argv: seq<string>, p: nat, done: string, q: nat, v: string)
    requires Reached(w, vars, s, stop, argv, p, done) && q <= |s|
    requires Steps(w, vars, s, stop, argv, p, Done(v), q)
    ensures Reached(w, vars, s, stop, argv, q, done + v)
  {
    assert Wanted(p);
    ThenAssociates(done, v, Expand(w, vars, s[q..], stop, argv));
  }

  lemma ReferenceParts(s: string, p: nat, q: nat)
    requires p + 1 < |s| && s[p] == '$' && s[p + 1] == '(' && q == Closing(s, p + 2, 0)
    ensures var t := s[p..];
      && |t| > 1 && t[0] == '$' && t[1] == '(' && Closing(t, 2, 0) == q - p && |t| == |s| - p
      && (q < |s| ==> t[2..q - p] == s[p + 2..q] && t[q - p + 1..] == s[q + 1..])
  {
    ClosingShift(s, p, p + 2, 0);
  }

  /** The reference, or the lone dollar, at position p expands to r, and the expansion goes on at q. */
  ghost predicate Steps(
    w: World, vars: seq<Variable>, s: string, stop: char -> bool, argv: seq<string>, p: nat, r: Outcome, q: nat)
    requires p <= |s| && q <= |s|
  {
    forall at {:trigger Wanted(at)} :: Wanted(at) && at == p ==>
      Expand(w, vars, s[at..], stop, argv) ==
        if r.Error? then Failed else Then(r, Expand(w, vars, s[q..], stop, argv))
  }

  /** Names the positions whose expansion a proof looks into. */
  ghost predicate Wanted(p: int) { true }

  lemma DollarAlone(w: World, vars: seq<Variable>, s: string, stop: char -> bool, argv: seq<string>, p: nat)
    requires p < |s| && s[p] == '$' && (p + 1 == |s| || s[p + 1] != '(')
    ensures Steps(w, vars, s, stop, argv, p, Done("$"), p + 1)
  {
    assert s[p..][1..] == s[p + 1..];
  }

  /** A text that starts with a reference. */
  lemma ReferenceExpands(w: World, vars: seq<Variable>, t: string, stop: char -> bool, argv: seq<string>, q: nat)
    requires |t| > 1 && t[0] == '$' && t[1] == '(' && q == Closing(t, 2, 0)
    ensures Expand(w, vars, t, stop, argv) == if q == |t| then Failed
      else Then(Eval(w, vars, t[2..q], argv), Expand(w, vars, t[q + 1..], stop, argv))
  {
  }

  lemma DollarUnclosed(
    w: World, vars: seq<Variable>, s: string, stop: char -> bool, argv: seq<string>, p: nat, r: Outcome, q: nat)
    requires p + 1 < |s| && s[p] == '$' && s[p + 1] == '(' && Closing(s, p + 2, 0) == q == |s| && r == Error
    ensures Steps(w, vars, s, stop, argv, p, r, q)
  {
    ReferenceParts(s, p, q);
    ReferenceExpands(w, vars, s[p..], stop, argv, q - p);
  }

  lemma DollarReference(
    w: World, vars: seq<Variable>, s: string, stop: char -> bool, argv: seq<string>, p: nat, q: nat)
    requires p + 2 <= q < |s| && s[p] == '$' && s[p + 1] == '(' && q == Closing(s, p + 2, 0)
    ensures Steps(w, vars, s, stop, argv, p, Eval(w, vars, s[p + 2..q], argv), q + 1)
  {
    ReferenceParts(s, p, q);
    ReferenceExpands(w, vars, s[p..], stop, argv, q - p);
  }

  lemma ReachError(
    w: World, vars: seq<Variable>, s: string, stop: char -> bool, argv: seq<string>, p: nat, done: string, q: nat)
    requires Reached(w, vars, s, stop, argv, p, done) && q <= |s| && Steps(w, vars, s, stop, argv, p, Error, q)
    ensures Expand(w, vars, s, stop, argv) == Failed
  {
    assert Wanted(p);
  }

  lemma ReachEnd(w: World, vars: seq<Variable>, s: string, stop: char -> bool, argv: seq<string>, p: nat, done: string)
    requires Reached(w, vars, s, stop, argv, p, done) && (p == |s| || (s[p] != '$' && stop(s[p])))
    ensures Expand(w, vars, s, stop, argv) == Upto(done, s[p..])
  {
    assert Wanted(p);
    assert done + "" == done;
  }

  lemma ThenAssociates(a: string, b: string, r: Partial)
    ensures Then(Done(a), Then(Done(b), r)) == Then(Done(a + b), r)
  {
    if r.Upto? {
      assert a + (b + r.value) == a + b + r.value;
    }
  }

  lemma {:induction false} ClosingShift(s: string, p: nat, i: nat, nest: nat)
    requires p <= i <= |s|
    ensures Closing(s[p..], i - p, nest) == Closing(s, i, nest) - p
    decreases |s| - i
  {
    if i < |s| {
      assert s[p..][i - p] == s[i];
      if s[i] == '(' {
        ClosingShift(s, p, i + 1, nest + 1);
      } else if s[i] == ')' {
        if nest > 0 {
          ClosingShift(s, p, i + 1, nest - 1);
        }
      } else {
        ClosingShift(s, p, i + 1, nest);
      }
    }
  }
}
