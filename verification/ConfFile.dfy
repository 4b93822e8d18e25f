/** A whole configuration file: what the walk over the menu tree writes, as text, and what reading it back sets. */
module ConfFile {
  import opened Exprs
  import opened MenuTree
  import opened Sequences
  import opened ConfText
  import W = ConfWrite

  /** The title of a menu or comment, and the symbol with its value. */
  datatype Content = Content(title: Menu -> string, item: Sym -> Item)

  function Comment(title: string): string { "# " + title + "\n" }

  function Closing(title: string): string { "# end of " + title + "\n" }

  function EventText(e: W.Event, d: Content): string {
    match e
    case Heading(m) => "\n#\n" + (Comment(d.title(m)) + "#\n")
    case EndOf(m) => Closing(d.title(m))
    case Blank => "\n"
    case Line(s) => Print(d.item(s))
  }

  function Text(events: seq<W.Event>, d: Content): string {
    if events == [] then "" else EventText(events[0], d) + Text(events[1..], d)
  }

  const NOTICE: string := "# Automatically generated file; DO NOT EDIT."

  /** conf_write_heading: main is the title of the whole configuration. */
  function Header(main: string): string {
    "#\n" + (NOTICE + "\n") + (Comment(main) + "#\n")
  }

  // ---------- blocks of lines ----------

  predicate Terminated(s: string) {
    s == "" || s[|s| - 1] == '\n'
  }

  lemma {:induction false} LinesAppend(a: string, b: string)
    requires Terminated(a)
    ensures FileLines(a + b) == FileLines(a) + FileLines(b)
    decreases |a|
  {
    if a == "" {
      assert a + b == b;
    } else {
      var nl := IndexOf(a, '\n', 0);
      assert nl < |a|;
      var (body, rest) := (a[..nl], a[nl + 1..]);
      assert a == body + "\n" + rest && a + b == body + "\n" + (rest + b);
      FirstLine(body, rest);
      FirstLine(body, rest + b);
      LinesAppend(rest, b);
      Associate([body + "\n"], FileLines(rest), FileLines(b));
    }
  }

  /** A block of whole lines is read on its own. */
  lemma ReadAppend(typeOf: string -> SymType, a: string, b: string)
    requires Terminated(a)
    ensures ReadFile(typeOf, a + b) == ReadFile(typeOf, a) + ReadFile(typeOf, b)
  {
    LinesAppend(a, b);
    ReadLinesAppend(typeOf, FileLines(a), FileLines(b));
  }

  /** The text sets nothing. */
  predicate Quiet(typeOf: string -> SymType, text: string) {
    ReadFile(typeOf, text) == []
  }

  lemma OneLineReads(typeOf: string -> SymType, body: string)
    requires forall i :: 0 <= i < |body| ==> body[i] != '\n'
    ensures ReadFile(typeOf, body + "\n") == ReadLine(typeOf, body + "\n")
  {
    ReadFirst(typeOf, body, "");
    assert body + "\n" + "" == body + "\n";
    assert ReadFile(typeOf, "") == [];
  }

  /** Lines that are no assignments and do not begin like an unset symbol. */
  lemma FixedLines(typeOf: string -> SymType)
    ensures Quiet(typeOf, "\n") && Quiet(typeOf, "#\n")
  {
    OneLineReads(typeOf, "");
    OneLineReads(typeOf, "#");
    assert "" + "\n" == "\n" && "#" + "\n" == "#\n";
  }

  /** Around a title stand lines that set nothing. */
  lemma BlockReads(typeOf: string -> SymType, before: string, title: string)
    requires Terminated(before) && Quiet(typeOf, before)
    ensures ReadFile(typeOf, before + (Comment(title) + "#\n")) == ReadFile(typeOf, Comment(title))
  {
    FixedLines(typeOf);
    ReadAppend(typeOf, before, Comment(title) + "#\n");
    ReadAppend(typeOf, Comment(title), "#\n");
  }

  lemma HeadingReads(typeOf: string -> SymType, title: string)
    ensures ReadFile(typeOf, "\n#\n" + (Comment(title) + "#\n")) == ReadFile(typeOf, Comment(title))
  {
    FixedLines(typeOf);
    ReadAppend(typeOf, "\n", "#\n");
    assert "\n" + "#\n" == "\n#\n";
    BlockReads(typeOf, "\n#\n", title);
  }

  lemma NoticeIsQuiet(typeOf: string -> SymType)
    ensures Quiet(typeOf, "#\n" + (NOTICE + "\n"))
  {
    FixedLines(typeOf);
    NoticeLine(NOTICE);
    OneLineReads(typeOf, NOTICE);
    NotUnset(typeOf, NOTICE);
    ReadAppend(typeOf, "#\n", NOTICE + "\n");
  }

  lemma NoticeLine(notice: string)
    requires notice == NOTICE
    ensures |notice| > 2 && notice[0] == '#' && notice[2] != 'C' && forall i :: 0 <= i < |notice| ==> notice[i] != '\n'
  {
  }

  lemma NotUnset(typeOf: string -> SymType, body: string)
    requires |body| > 2 && body[0] == '#' && body[2] != 'C'
    ensures ReadLine(typeOf, body + "\n") == []
  {
    var line := body + "\n";
    assert line[2..][0] == body[2];
    assert PREFIX[0] == 'C';
  }

  lemma HeaderReads(typeOf: string -> SymType, main: string)
    ensures ReadFile(typeOf, Header(main)) == ReadFile(typeOf, Comment(main))
  {
    NoticeIsQuiet(typeOf);
    BlockReads(typeOf, "#\n" + (NOTICE + "\n"), main);
  }

  // ---------- what the walk writes ----------

  /** A value that can be written and read: see Proper. Strings with line breaks are the subject of BrokenString. */
  predicate Readable(typeOf: string -> SymType, x: Item) {
    ConfText.Proper(x) && OneLineValue(x) && typeOf(x.name) == x.typ
  }

  function Items(ss: seq<Sym>, d: Content): seq<Item> {
    if ss == [] then [] else [d.item(ss[0])] + Items(ss[1..], d)
  }

  /** What the titles of an event set. */
  function Noise(typeOf: string -> SymType, e: W.Event, d: Content): seq<(string, Setting)> {
    match e
    case Heading(m) => ReadFile(typeOf, Comment(d.title(m)))
    case EndOf(m) => ReadFile(typeOf, Closing(d.title(m)))
    case _ => []
  }

  predicate Silent(typeOf: string -> SymType, events: seq<W.Event>, d: Content) {
    forall i :: 0 <= i < |events| ==> Noise(typeOf, events[i], d) == []
  }

  lemma EventReads(typeOf: string -> SymType, e: W.Event, d: Content)
    requires e.Line? ==> Readable(typeOf, d.item(e.sym))
    ensures Terminated(EventText(e, d))
    ensures ReadFile(typeOf, EventText(e, d)) ==
      if e.Line? then [Expected(d.item(e.sym))] else Noise(typeOf, e, d)
  {
    match e
    case Heading(m) => HeadingReads(typeOf, d.title(m));
    case EndOf(_) =>
    case Blank => FixedLines(typeOf);
    case Line(s) =>
      var x := d.item(s);
      FileRoundTrip(typeOf, [x]);
      PrintOne(x);
      LineOfPrints(x);
  }

  /** What is read is what is expected exactly when nothing more is read. */
  predicate Accounted<T(==)>(read: seq<T>, expected: seq<T>, silent: bool) {
    |read| >= |expected| && (|read| == |expected| <==> silent) && (silent ==> read == expected)
  }

  lemma AccountedLine<T>(x: T, read: seq<T>, expected: seq<T>, silent: bool)
    requires Accounted(read, expected, silent)
    ensures Accounted([x] + read, [x] + expected, silent)
  {
  }

  lemma AccountedNoise<T>(noise: seq<T>, read: seq<T>, expected: seq<T>, silent: bool)
    requires Accounted(read, expected, silent)
    ensures Accounted(noise + read, expected, noise == [] && silent)
  {
    assert noise == [] ==> noise + read == read;
  }

  /** The lines of symbols are read back, and nothing else exactly when the titles are silent. */
  lemma {:induction false} TextReads(typeOf: string -> SymType, events: seq<W.Event>, d: Content)
    requires forall s :: s in W.Lines(events) ==> Readable(typeOf, d.item(s))
    ensures var (read, expected) := (ReadFile(typeOf, Text(events, d)), ExpectedAll(Items(W.Lines(events), d)));
      Accounted(read, expected, Silent(typeOf, events, d))
  {
    if events == [] {
      assert ReadFile(typeOf, "") == [];
    } else {
      var (e, more) := (events[0], events[1..]);
      TextStep(events);
      EventReads(typeOf, e, d);
      TextReads(typeOf, more, d);
      ReadAppend(typeOf, EventText(e, d), Text(more, d));
      SilentParts(typeOf, events, d);
      var (read, expected) := (ReadFile(typeOf, Text(more, d)), ExpectedAll(Items(W.Lines(more), d)));
      if e.Line? {
        LineItems(e.sym, W.Lines(more), d);
        AccountedLine(Expected(d.item(e.sym)), read, expected, Silent(typeOf, more, d));
      } else {
        AccountedNoise(Noise(typeOf, e, d), read, expected, Silent(typeOf, more, d));
        assert [] + W.Lines(more) == W.Lines(more);
      }
    }
  }

  lemma LineItems(s: Sym, ss: seq<Sym>, d: Content)
    ensures ExpectedAll(Items([s] + ss, d)) == [Expected(d.item(s))] + ExpectedAll(Items(ss, d))
  {
    assert ([s] + ss)[0] == s && ([s] + ss)[1..] == ss;
    ExpectedStep(d.item(s), Items(ss, d));
  }

  lemma TextStep(events: seq<W.Event>)
    requires events != []
    ensures W.Lines(events) == (if events[0].Line? then [events[0].sym] else []) + W.Lines(events[1..])
    ensures events[0].Line? ==> events[0].sym in W.Lines(events)
    ensures forall s :: s in W.Lines(events[1..]) ==> s in W.Lines(events)
  {
  }

  lemma SilentParts(typeOf: string -> SymType, events: seq<W.Event>, d: Content)
    requires events != []
    ensures Silent(typeOf, events, d) <==> Noise(typeOf, events[0], d) == [] && Silent(typeOf, events[1..], d)
  {
    assert forall i :: 0 < i < |events| ==> events[i] == events[1..][i - 1];
  }

  lemma ExpectedStep(x: Item, xs: seq<Item>)
    ensures ExpectedAll([x] + xs) == [Expected(x)] + ExpectedAll(xs)
  {
    assert ([x] + xs)[0] == x && ([x] + xs)[1..] == xs;
  }

  /** The node writes titles that set nothing. */
  predicate QuietNode(typeOf: string -> SymType, c: W.Config, m: Menu, d: Content) {
    m.sym.None? && c.visible(m) ==>
      Quiet(typeOf, Comment(d.title(m))) && (W.Closes(c, m) ==> Quiet(typeOf, Closing(d.title(m))))
  }

  lemma SilentAppend(typeOf: string -> SymType, a: seq<W.Event>, b: seq<W.Event>, d: Content)
    ensures Silent(typeOf, a + b, d) <==> Silent(typeOf, a, d) && Silent(typeOf, b, d)
  {
    assert forall i :: 0 <= i < |a| ==> (a + b)[i] == a[i];
    assert forall i :: 0 <= i < |b| ==> (a + b)[|a| + i] == b[i];
  }

  lemma SilentOne(typeOf: string -> SymType, e: W.Event, d: Content)
    ensures Silent(typeOf, [e], d) <==> Noise(typeOf, e, d) == []
  {
    assert [e][0] == e;
  }

  lemma EnterSilent(typeOf: string -> SymType, c: W.Config, m: Menu, o: W.Output, d: Content)
    ensures Silent(typeOf, W.Enter(c, m, o).events, d) <==>
      Silent(typeOf, o.events, d) && (m.sym.None? && c.visible(m) ==> Quiet(typeOf, Comment(d.title(m))))
  {
    if m.sym.None? {
      SilentAppend(typeOf, o.events, [W.Heading(m)], d);
      SilentOne(typeOf, W.Heading(m), d);
    } else {
      LineSilent(typeOf, o.events, o.needNewline, m.sym.value, d);
    }
  }

  lemma LineSilent(typeOf: string -> SymType, events: seq<W.Event>, needNewline: bool, s: Sym, d: Content)
    ensures Silent(typeOf, events + (if needNewline then [W.Blank] else []) + [W.Line(s)], d) <==>
      Silent(typeOf, events, d)
  {
    var blank := if needNewline then [W.Blank] else [];
    SilentOne(typeOf, W.Blank, d);
    SilentOne(typeOf, W.Line(s), d);
    SilentAppend(typeOf, events, blank, d);
    SilentAppend(typeOf, events + blank, [W.Line(s)], d);
  }

  lemma LeaveSilent(typeOf: string -> SymType, c: W.Config, m: Menu, o: W.Output, d: Content)
    ensures Silent(typeOf, W.Leave(c, m, o).events, d) <==>
      Silent(typeOf, o.events, d) && (W.Closes(c, m) ==> Quiet(typeOf, Closing(d.title(m))))
  {
    SilentAppend(typeOf, o.events, [W.EndOf(m)], d);
    SilentOne(typeOf, W.EndOf(m), d);
  }

  ghost predicate AllQuiet(typeOf: string -> SymType, c: W.Config, order: seq<Menu>, d: Content) {
    forall i :: 0 <= i < |order| ==> QuietNode(typeOf, c, order[i], d)
  }

  lemma AllQuietParts(typeOf: string -> SymType, c: W.Config, m: Menu, l: seq<Menu>, n: seq<Menu>, d: Content)
    ensures AllQuiet(typeOf, c, [m] + (l + n), d) <==>
      QuietNode(typeOf, c, m, d) && AllQuiet(typeOf, c, l, d) && AllQuiet(typeOf, c, n, d)
  {
    var order := [m] + (l + n);
    assert order[0] == m;
    assert forall i :: 0 <= i < |l| ==> order[i + 1] == l[i];
    assert forall i :: 0 <= i < |n| ==> order[|l| + i + 1] == n[i];
  }

  /** The titles that are written are those of the visible nodes without a symbol. */
  lemma {:induction false} EmitSilent(typeOf: string -> SymType, c: W.Config, f: Forest, o: W.Output, d: Content)
    ensures Silent(typeOf, W.Emit(c, f, o).events, d) <==>
      Silent(typeOf, o.events, d) && AllQuiet(typeOf, c, Preorder(f), d)
  {
    if f.Node? {
      var o1 := W.Enter(c, f.menu, o);
      var o2 := W.Emit(c, f.list, o1);
      var o3 := W.Leave(c, f.menu, o2);
      EnterSilent(typeOf, c, f.menu, o, d);
      EmitSilent(typeOf, c, f.list, o1, d);
      LeaveSilent(typeOf, c, f.menu, o2, d);
      EmitSilent(typeOf, c, f.next, o3, d);
      AllQuietParts(typeOf, c, f.menu, Preorder(f.list), Preorder(f.next), d);
    }
  }

  /** The file that conf_write leaves, for the nodes below the root. */
  function Written(c: W.Config, f: Forest, main: string, d: Content): string {
    Header(main) + Text(W.Emit(c, f, W.Output([], {}, false)).events, d)
  }

  /** Reading the file sets exactly the selected symbols, to their values and in the order of the menu tree, if and
      only if no title in it sets one. */
  lemma WrittenReadsBack(typeOf: string -> SymType, c: W.Config, f: Forest, main: string, d: Content)
    requires forall s :: s in W.Selected(c, Preorder(f), {}) ==> Readable(typeOf, d.item(s))
    ensures ReadFile(typeOf, Written(c, f, main, d)) == ExpectedAll(Items(W.Selected(c, Preorder(f), {}), d)) <==>
      Quiet(typeOf, Comment(main)) && AllQuiet(typeOf, c, Preorder(f), d)
  {
    var empty := W.Output([], {}, false);
    var events := W.Emit(c, f, empty).events;
    W.EmitLines(c, f, empty);
    assert W.Lines(events) == W.Selected(c, Preorder(f), {});
    EmitSilent(typeOf, c, f, empty, d);
    TextReads(typeOf, events, d);
    HeaderReads(typeOf, main);
    HeaderEnds(main);
    ReadAppend(typeOf, Header(main), Text(events, d));
  }

  lemma HeaderEnds(main: string)
    ensures Terminated(Header(main))
  {
    var end := Comment(main) + "#\n";
    assert end[|end| - 1] == '\n';
  }

  // ---------- titles ----------

  /** The title reads like the line of a symbol that is not set. */
  predicate LooksUnset(typeOf: string -> SymType, title: string) {
    var line := SplitLine(Comment(title));
    line.Unset? && (typeOf(line.name).Boolean? || typeOf(line.name).Tristate?)
  }

  /** A title of one line sets nothing if and only if it does not read like such a line; closing lines never do. */
  lemma TitleQuiet(typeOf: string -> SymType, c: W.Config, m: Menu, d: Content)
    requires forall i :: 0 <= i < |d.title(m)| ==> d.title(m)[i] != '\n'
    ensures QuietNode(typeOf, c, m, d) <==> (m.sym.None? && c.visible(m) ==> !LooksUnset(typeOf, d.title(m)))
  {
    CommentQuiet(typeOf, d.title(m));
    ClosingQuiet(typeOf, d.title(m));
  }

  lemma CommentQuiet(typeOf: string -> SymType, title: string)
    requires forall i :: 0 <= i < |title| ==> title[i] != '\n'
    ensures Quiet(typeOf, Comment(title)) <==> !LooksUnset(typeOf, title)
  {
    var body := "# " + title;
    OneLineReads(typeOf, body);
    CommentIsNoAssignment(title);
  }

  lemma CommentIsNoAssignment(title: string)
    ensures !SplitLine(Comment(title)).Assigned?
  {
    var line := Comment(title);
    assert line[0] == '#';
  }

  lemma ClosingQuiet(typeOf: string -> SymType, title: string)
    requires forall i :: 0 <= i < |title| ==> title[i] != '\n'
    ensures Quiet(typeOf, Closing(title))
  {
    var body := "# end of " + title;
    assert body[0] == '#' && body[2] == 'e';
    OneLineReads(typeOf, body);
    NotUnset(typeOf, body);
  }

  /** A menu or comment with the title "CONFIG_X is not set" sets X to n. */
  lemma TitleUnsets(typeOf: string -> SymType, name: string, typ: SymType)
    requires PlainName(name) && typeOf(name) == typ && (typ.Boolean? || typ.Tristate?)
    ensures ReadFile(typeOf, Comment(PREFIX + name + " is not set")) == [(name, TriSetting(NO))]
  {
    var x := Item(name, typ, NO, "");
    FileRoundTrip(typeOf, [x]);
    PrintOne(x);
    UnsetText(PREFIX, name);
  }

  lemma UnsetText(prefix: string, name: string)
    ensures Comment(prefix + name + " is not set") == "# " + prefix + name + " is not set\n"
  {
    assert " is not set" + "\n" == " is not set\n";
    AssociateFour("# ", prefix, name, " is not set");
    Associate("# " + prefix + name, " is not set", "\n");
  }
}
