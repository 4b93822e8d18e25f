/** conf_write: the walk over the menu tree that writes the configuration, without a stack. */
module ConfWrite {
  import opened Wrappers
  import opened Exprs
  import opened MenuTree
  import opened Sequences

  datatype Event =
    | Heading(menu: Menu)   // the comment block that opens a menu or shows a comment
    | EndOf(menu: Menu)     // the line that closes a menu
    | Blank                 // the empty line after a closed menu
    | Line(sym: Sym)        // the line of one symbol

  /** What the walk looks up but does not change: visibility of nodes, the kind of their prompt, and for every
      symbol whether it is a choice and whether its value is to be written. */
  datatype Config = Config(
    root: Menu, visible: Menu -> bool, isMenu: Menu -> bool, isChoice: Sym -> bool, written: Sym -> bool)

  datatype Output = Output(events: seq<Event>, done: set<Sym>, needNewline: bool)

  // ---------- the specification: a plain recursion over the tree ----------

  function Enter(c: Config, m: Menu, o: Output): Output {
    match m.sym
    case None =>
      if c.visible(m) then o.(events := o.events + [Heading(m)], needNewline := false) else o
    case Some(s) =>
      if c.isChoice(s) || s in o.done || !c.written(s) then o
      else Output(o.events + (if o.needNewline then [Blank] else []) + [Line(s)], o.done + {s}, false)
  }

  predicate Closes(c: Config, m: Menu) {
    m.sym.None? && c.visible(m) && m != c.root && c.isMenu(m)
  }

  function Leave(c: Config, m: Menu, o: Output): Output {
    if Closes(c, m) then o.(events := o.events + [EndOf(m)], needNewline := true) else o
  }

  function Emit(c: Config, f: Forest, o: Output): Output {
    if f.Nil? then o
    else Emit(c, f.next, Leave(c, f.menu, Emit(c, f.list, Enter(c, f.menu, o))))
  }

  // ---------- the walk ----------

  /** Where the walk stands: in the child list of menu, whose own successors are rest, and so on upwards. */
  datatype Context = Top | Below(menu: Menu, rest: Forest, up: Context)

  function ParentOf(k: Context): Menu? {
    if k.Top? then null else k.menu
  }

  /** What remains to be written once the current list has been dealt with. */
  function Resume(c: Config, k: Context, o: Output): Output {
    if k.Top? then o else Resume(c, k.up, Emit(c, k.rest, Leave(c, k.menu, o)))
  }

  ghost function ContextNodes(k: Context): set<Menu> {
    if k.Top? then {} else {k.menu} + Nodes(k.rest) + ContextNodes(k.up)
  }

  /** The context describes the links of the tree above the cursor. */
  ghost predicate Linked(k: Context)
    reads ContextNodes(k)
  {
    k.Below? ==>
      k.menu.parent == ParentOf(k.up) && Segment(k.menu.next, k.rest, ParentOf(k.up), null) && Linked(k.up)
  }

  lemma {:induction false} ContextAllocated(k: Context)
    ensures forall m :: m in ContextNodes(k) ==> allocated(m)
  {
    if k.Below? {
      NodesAllocated(k.rest);
      ContextAllocated(k.up);
      assert allocated(k.menu);
    }
  }

  function Count(f: Forest): nat {
    if f.Nil? then 0 else 2 + Count(f.list) + Count(f.next)
  }

  /** Twice the nodes still to be entered, and the levels still to be left. */
  function Remaining(k: Context): nat {
    if k.Top? then 0 else 1 + Count(k.rest) + Remaining(k.up)
  }

  /** The rest of the preorder. */
  function ResumeOrder(k: Context): seq<Menu> {
    if k.Top? then [] else Preorder(k.rest) + ResumeOrder(k.up)
  }

  class Writer {
    const config: Config
    var events: seq<Event>
    var done: set<Sym>
    var needNewline: bool
    ghost var visited: seq<Menu>

    constructor (c: Config)
      ensures config == c && State() == Output([], {}, false) && visited == []
    {
      config := c;
      events, done, needNewline, visited := [], {}, false, [];
    }

    function State(): Output
      reads this
    {
      Output(events, done, needNewline)
    }

    /** The body of the loop in conf_write for one node, on the way down. */
    method WriteNode(menu: Menu)
      modifies this
      ensures State() == Enter(config, menu, old(State()))
      ensures visited == old(visited) + [menu]
    {
      visited := visited + [menu];
      match menu.sym
      case None =>
        if config.visible(menu) {
          events := events + [Heading(menu)];
          needNewline := false;
        }
      case Some(s) =>
        if !config.isChoice(s) && s !in done && config.written(s) {
          if needNewline {
            events := events + [Blank];
            needNewline := false;
          }
          done := done + {s};
          events := events + [Line(s)];
        }
    }

    /** The end_check part: menus are closed on the way up, until there is a successor or the root has been left. */
    method CloseMenus(menu: Menu, ghost rest: Forest, ghost k: Context)
      returns (next: Menu?, ghost f: Forest, ghost k': Context)
      requires Segment(menu.next, rest, ParentOf(k), null) && menu.parent == ParentOf(k) && Linked(k)
      modifies this
      ensures if next == null then k' == Top && f == Nil
              else f.Node? && Segment(next, f, ParentOf(k'), null) && Linked(k')
      ensures Resume(config, k', Emit(config, f, State())) == Resume(config, Below(menu, rest, k), old(State()))
      ensures Preorder(f) + ResumeOrder(k') == ResumeOrder(Below(menu, rest, k))
      ensures Count(f) + Remaining(k') < Remaining(Below(menu, rest, k))
      ensures visited == old(visited)
    {
      var m: Menu := menu;
      f, k' := rest, k;
      while true
        invariant Segment(m.next, f, ParentOf(k'), null) && m.parent == ParentOf(k') && Linked(k')
        invariant Resume(config, Below(m, f, k'), State()) == Resume(config, Below(menu, rest, k), old(State()))
        invariant ResumeOrder(Below(m, f, k')) == ResumeOrder(Below(menu, rest, k))
        invariant Remaining(Below(m, f, k')) <= Remaining(Below(menu, rest, k))
        invariant visited == old(visited)
        decreases k'
      {
        NodesAllocated(f);
        ContextAllocated(k');
        if k'.Below? {
          NodesAllocated(k'.rest);
          ContextAllocated(k'.up);
        }
        assert k'.Below? ==> Segment(k'.menu.next, k'.rest, ParentOf(k'.up), null) && Linked(k'.up);
        if m.sym.None? && config.visible(m) && m != config.root && config.isMenu(m) {
          events := events + [EndOf(m)];
          needNewline := true;
        }
        assert k'.Below? ==> Segment(k'.menu.next, k'.rest, ParentOf(k'.up), null) && Linked(k'.up);
        if m.next != null {
          next := m.next;
          break;
        }
        assert f == Nil;
        if m.parent == null {
          next := null;
          break;
        }
        m, f, k' := m.parent, k'.rest, k'.up;
      }
    }

    /** The whole walk below the root node. */
    method Write(ghost kids: Forest)
      requires Segment(config.root, Node(config.root, kids, Nil), null, null)
      modifies this
      ensures State() == Emit(config, kids, old(State())).(done := {})
      ensures visited == old(visited) + Preorder(kids)
    {
      var menu := config.root.list;
      ghost var f, k := kids, Below(config.root, Nil, Top);
      ghost var goal := Emit(config, kids, State());
      if menu == null {
        assert kids == Nil;
        done := {};
        return;
      }
      while menu != null
        invariant if menu == null then k == Top && f == Nil else f.Node? && Segment(menu, f, ParentOf(k), null) && Linked(k)
        invariant Resume(config, k, Emit(config, f, State())) == goal
        invariant visited + (Preorder(f) + ResumeOrder(k)) == old(visited) + Preorder(kids)
        decreases Count(f) + Remaining(k)
      {
        ghost var v, f0, k0 := visited, f, k;
        menu, f, k := Step(menu, f, k);
        Associate(v, [f0.menu], Preorder(f) + ResumeOrder(k));
      }
      done := {};
    }

    /** One round of the loop. */
    method Step(menu: Menu, ghost f: Forest, ghost k: Context) returns (next: Menu?, ghost f': Forest, ghost k': Context)
      requires f.Node? && Segment(menu, f, ParentOf(k), null) && Linked(k)
      modifies this
      ensures if next == null then k' == Top && f' == Nil
              else f'.Node? && Segment(next, f', ParentOf(k'), null) && Linked(k')
      ensures Resume(config, k', Emit(config, f', State())) == Resume(config, k, Emit(config, f, old(State())))
      ensures visited == old(visited) + [menu]
      ensures [menu] + (Preorder(f') + ResumeOrder(k')) == Preorder(f) + ResumeOrder(k)
      ensures Count(f') + Remaining(k') < Count(f) + Remaining(k)
    {
      HeadFacts(menu, f, ParentOf(k));
      NodesAllocated(f.list);
      NodesAllocated(f.next);
      ContextAllocated(k);
      AssociateFour([menu], Preorder(f.list), Preorder(f.next), ResumeOrder(k));
      assert Preorder(f.list) == [] ==> Preorder(f.list) + Preorder(f.next) == Preorder(f.next);
      WriteNode(menu);
      if menu.list != null {
        next, f', k' := menu.list, f.list, Below(menu, f.next, k);
      } else {
        next, f', k' := CloseMenus(menu, f.next, k);
      }
    }
  }

  // ---------- what the output looks like ----------

  /** The symbols in the lines of an output, in order. */
  function Lines(events: seq<Event>): seq<Sym> {
    if events == [] then []
    else (if events[0].Line? then [events[0].sym] else []) + Lines(events[1..])
  }

  lemma {:induction false} LinesConcat(a: seq<Event>, b: seq<Event>)
    ensures Lines(a + b) == Lines(a) + Lines(b)
  {
    if a == [] {
      assert a + b == b;
    } else {
      LinesConcat(a[1..], b);
      assert (a + b)[1..] == a[1..] + b;
    }
  }

  /** The symbols that a walk over the given nodes writes: first occurrences of written symbols that are no choices. */
  function Selected(c: Config, order: seq<Menu>, done: set<Sym>): seq<Sym> {
    if order == [] then []
    else
      match order[0].sym
      case None => Selected(c, order[1..], done)
      case Some(s) =>
        if c.isChoice(s) || s in done || !c.written(s) then Selected(c, order[1..], done)
        else [s] + Selected(c, order[1..], done + {s})
  }

  function Collected(c: Config, order: seq<Menu>, done: set<Sym>): set<Sym> {
    done + set s | s in Selected(c, order, done)
  }

  lemma {:induction false} SelectedConcat(c: Config, a: seq<Menu>, b: seq<Menu>, done: set<Sym>)
    ensures Selected(c, a + b, done) == Selected(c, a, done) + Selected(c, b, Collected(c, a, done))
    ensures Collected(c, a + b, done) == Collected(c, b, Collected(c, a, done))
  {
    if a == [] {
      assert a + b == b;
      assert Collected(c, [], done) == done;
    } else {
      assert (a + b)[1..] == a[1..] + b;
      match a[0].sym
      case None => SelectedConcat(c, a[1..], b, done);
      case Some(s) =>
        if c.isChoice(s) || s in done || !c.written(s) {
          SelectedConcat(c, a[1..], b, done);
        } else {
          SelectedConcat(c, a[1..], b, done + {s});
          assert Collected(c, a, done) == Collected(c, a[1..], done + {s});
        }
    }
  }

  /** No symbol is selected twice, and exactly those that occur, are written and are no choices are selected. */
  lemma {:induction false} SelectedOnce(c: Config, order: seq<Menu>, done: set<Sym>)
    ensures forall i, j :: 0 <= i < j < |Selected(c, order, done)| ==> Selected(c, order, done)[i] != Selected(c, order, done)[j]
    ensures forall s :: s in Selected(c, order, done) <==>
              s !in done && !c.isChoice(s) && c.written(s) && exists m :: m in order && m.sym == Some(s)
  {
    if order != [] {
      assert forall m :: m in order <==> m == order[0] || m in order[1..];
      match order[0].sym
      case None => SelectedOnce(c, order[1..], done);
      case Some(s) =>
        if c.isChoice(s) || s in done || !c.written(s) {
          SelectedOnce(c, order[1..], done);
        } else {
          SelectedOnce(c, order[1..], done + {s});
        }
    }
  }

  /** The lines written are the selected symbols, in the order of the menu tree. */
  lemma {:induction false} EmitLines(c: Config, f: Forest, o: Output)
    ensures Lines(Emit(c, f, o).events) == Lines(o.events) + Selected(c, Preorder(f), o.done)
    ensures Emit(c, f, o).done == Collected(c, Preorder(f), o.done)
  {
    if f.Node? {
      var o1 := Enter(c, f.menu, o);
      var o2 := Emit(c, f.list, o1);
      var o3 := Leave(c, f.menu, o2);
      EnterLines(c, f.menu, o);
      EmitLines(c, f.list, o1);
      LinesConcat(o2.events, [EndOf(f.menu)]);
      LinesOne(EndOf(f.menu));
      EmitLines(c, f.next, o3);
      SelectedParts(c, f.menu, Preorder(f.list), Preorder(f.next), o.done, Lines(o.events));
    }
  }

  lemma SelectedParts(c: Config, m: Menu, l: seq<Menu>, n: seq<Menu>, done: set<Sym>, earlier: seq<Sym>)
    ensures var done1 := Collected(c, [m], done);
      var done2 := Collected(c, l, done1);
      && ((earlier + Selected(c, [m], done)) + Selected(c, l, done1)) + Selected(c, n, done2)
         == earlier + Selected(c, [m] + (l + n), done)
      && Collected(c, n, done2) == Collected(c, [m] + (l + n), done)
  {
    var done1 := Collected(c, [m], done);
    var done2 := Collected(c, l, done1);
    SelectedConcat(c, [m], l + n, done);
    SelectedConcat(c, l, n, done1);
    var a, b, d := Selected(c, [m], done), Selected(c, l, done1), Selected(c, n, done2);
    AssociateFour(earlier, a, b, d);
    Associate(earlier, a, b);
    Associate(a, b, d);
  }

  lemma LinesOne(e: Event)
    ensures Lines([e]) == if e.Line? then [e.sym] else []
  {
    assert [e][1..] == [];
  }

  lemma EnterLines(c: Config, m: Menu, o: Output)
    ensures Lines(Enter(c, m, o).events) == Lines(o.events) + Selected(c, [m], o.done)
    ensures Enter(c, m, o).done == Collected(c, [m], o.done)
  {
    SelectedOne(c, m, o.done);
    CollectedOne(c, m, o.done);
    if m.sym.None? {
      LinesAfter(o.events, Heading(m));
    } else {
      LinesAfterBlank(o.events, o.needNewline, m.sym.value);
    }
  }

  lemma LinesAfterBlank(events: seq<Event>, needNewline: bool, s: Sym)
    ensures Lines(events + (if needNewline then [Blank] else []) + [Line(s)]) == Lines(events) + [s]
  {
    LinesAfter(events, Blank);
    LinesAfter(events + (if needNewline then [Blank] else []), Line(s));
    assert events + [] == events;
  }

  lemma CollectedOne(c: Config, m: Menu, done: set<Sym>)
    ensures Collected(c, [m], done) ==
      if m.sym.None? || c.isChoice(m.sym.value) || m.sym.value in done || !c.written(m.sym.value) then done
      else done + {m.sym.value}
  {
    SelectedOne(c, m, done);
  }

  lemma LinesAfter(events: seq<Event>, e: Event)
    ensures Lines(events + [e]) == Lines(events) + (if e.Line? then [e.sym] else [])
  {
    LinesConcat(events, [e]);
    LinesOne(e);
  }

  lemma SelectedOne(c: Config, m: Menu, done: set<Sym>)
    ensures Selected(c, [m], done) ==
      if m.sym.None? || c.isChoice(m.sym.value) || m.sym.value in done || !c.written(m.sym.value) then []
      else [m.sym.value]
  {
    assert [m][1..] == [];
  }

  /** Reads the headings and closing lines of menus as brackets: the menus open afterwards, or None when a
      closing line does not match the menu opened last. Other headings open nothing. */
  function OpenMenus(c: Config, events: seq<Event>, open: seq<Menu>): Option<seq<Menu>> {
    if events == [] then Some(open)
    else
      match events[0]
      case Heading(m) => OpenMenus(c, events[1..], if Closes(c, m) then open + [m] else open)
      case EndOf(m) =>
        if open != [] && open[|open| - 1] == m then OpenMenus(c, events[1..], open[..|open| - 1]) else None
      case _ => OpenMenus(c, events[1..], open)
  }

  lemma {:induction false} OpenMenusConcat(c: Config, a: seq<Event>, b: seq<Event>, open: seq<Menu>)
    requires OpenMenus(c, a, open).Some?
    ensures OpenMenus(c, a + b, open) == OpenMenus(c, b, OpenMenus(c, a, open).value)
  {
    if a == [] {
      assert a + b == b;
    } else {
      assert (a + b)[1..] == a[1..] + b;
      match a[0]
      case Heading(m) => OpenMenusConcat(c, a[1..], b, if Closes(c, m) then open + [m] else open);
      case EndOf(m) => OpenMenusConcat(c, a[1..], b, open[..|open| - 1]);
      case _ => OpenMenusConcat(c, a[1..], b, open);
    }
  }

  lemma OneEvent(c: Config, e: Event, open: seq<Menu>)
    ensures e.Heading? ==> OpenMenus(c, [e], open) == Some(if Closes(c, e.menu) then open + [e.menu] else open)
    ensures e.EndOf? && open != [] && open[|open| - 1] == e.menu ==> OpenMenus(c, [e], open) == Some(open[..|open| - 1])
    ensures e.Blank? || e.Line? ==> OpenMenus(c, [e], open) == Some(open)
  {
    assert [e][1..] == [];
  }

  /** Menu headings and closing lines are properly nested: a walk over a list leaves the open menus as they were. */
  lemma {:induction false} EmitNested(c: Config, f: Forest, o: Output, open: seq<Menu>)
    requires OpenMenus(c, o.events, []) == Some(open)
    ensures OpenMenus(c, Emit(c, f, o).events, []) == Some(open)
  {
    if f.Node? {
      var m := f.menu;
      var inner := if Closes(c, m) then open + [m] else open;
      var o1 := Enter(c, m, o);
      EnterNested(c, m, o, open);
      EmitNested(c, f.list, o1, inner);
      var o2 := Emit(c, f.list, o1);
      OpenMenusConcat(c, o2.events, [EndOf(m)], []);
      OneEvent(c, EndOf(m), inner);
      assert Closes(c, m) ==> inner[..|inner| - 1] == open;
      EmitNested(c, f.next, Leave(c, m, o2), open);
    }
  }

  lemma EnterNested(c: Config, m: Menu, o: Output, open: seq<Menu>)
    requires OpenMenus(c, o.events, []) == Some(open)
    ensures OpenMenus(c, Enter(c, m, o).events, []) == Some(if Closes(c, m) then open + [m] else open)
  {
    OpenMenusConcat(c, o.events, [Heading(m)], []);
    OneEvent(c, Heading(m), open);
    OpenMenusConcat(c, o.events, [Blank], []);
    OneEvent(c, Blank, open);
    if m.sym.Some? {
      var line := [Line(m.sym.value)];
      OpenMenusConcat(c, o.events, line, []);
      OpenMenusConcat(c, o.events + [Blank], line, []);
      OneEvent(c, line[0], open);
      assert o.events + [] + line == o.events + line;
    }
  }
}
