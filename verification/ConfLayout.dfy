/** The layout of a configuration file: headings, closing lines and empty lines. */
module ConfLayout {
  import opened Exprs
  import opened MenuTree
  import opened Sequences
  import opened ConfWrite

  /** The headings and the lines of symbols. */
  function Entries(events: seq<Event>): seq<Event> {
    if events == [] then []
    else (if events[0].Heading? || events[0].Line? then [events[0]] else []) + Entries(events[1..])
  }

  lemma {:induction false} EntriesConcat(a: seq<Event>, b: seq<Event>)
    ensures Entries(a + b) == Entries(a) + Entries(b)
  {
    if a == [] {
      assert a + b == b;
    } else {
      EntriesConcat(a[1..], b);
      assert (a + b)[0] == a[0] && (a + b)[1..] == a[1..] + b;
      Associate(if a[0].Heading? || a[0].Line? then [a[0]] else [], Entries(a[1..]), Entries(b));
    }
  }

  lemma EntriesAfter(events: seq<Event>, e: Event)
    ensures Entries(events + [e]) == Entries(events) + if e.Heading? || e.Line? then [e] else []
  {
    EntriesConcat(events, [e]);
    assert [e][1..] == [];
  }

  /** What a node is entitled to: a heading if it is a visible menu or comment, a line if it has a symbol to be written
      that no earlier node had. */
  function EntryOf(c: Config, m: Menu, done: set<Sym>): seq<Event> {
    if m.sym.None? then (if c.visible(m) then [Heading(m)] else [])
    else if !c.isChoice(m.sym.value) && c.written(m.sym.value) && m.sym.value !in done then [Line(m.sym.value)]
    else []
  }

  function Lined(es: seq<Event>, done: set<Sym>): set<Sym> {
    if es != [] && es[0].Line? then done + {es[0].sym} else done
  }

  function EntriesOf(c: Config, order: seq<Menu>, done: set<Sym>): seq<Event> {
    if order == [] then []
    else
      var es := EntryOf(c, order[0], done);
      es + EntriesOf(c, order[1..], Lined(es, done))
  }

  lemma LinedCollects(c: Config, m: Menu, done: set<Sym>)
    ensures Collected(c, [m], done) == Lined(EntryOf(c, m, done), done)
  {
    CollectedOne(c, m, done);
  }

  lemma {:induction false} EntriesOfConcat(c: Config, a: seq<Menu>, b: seq<Menu>, done: set<Sym>)
    ensures EntriesOf(c, a + b, done) == EntriesOf(c, a, done) + EntriesOf(c, b, Collected(c, a, done))
    decreases |a|
  {
    if a == [] {
      assert a + b == b;
      assert Collected(c, [], done) == done;
    } else {
      var (es, more) := (EntryOf(c, a[0], done), a[1..]);
      var done1 := Lined(es, done);
      assert (a + b)[0] == a[0] && (a + b)[1..] == more + b;
      EntriesOfConcat(c, more, b, done1);
      SelectedConcat(c, [a[0]], more, done);
      LinedCollects(c, a[0], done);
      assert [a[0]] + more == a;
      Associate(es, EntriesOf(c, more, done1), EntriesOf(c, b, Collected(c, more, done1)));
    }
  }

  lemma EntriesOfOne(c: Config, m: Menu, done: set<Sym>)
    ensures EntriesOf(c, [m], done) == EntryOf(c, m, done)
  {
    assert [m][1..] == [];
  }

  lemma EnterEntries(c: Config, m: Menu, o: Output)
    ensures Entries(Enter(c, m, o).events) == Entries(o.events) + EntriesOf(c, [m], o.done)
    ensures Enter(c, m, o).done == Collected(c, [m], o.done)
  {
    EntriesOfOne(c, m, o.done);
    LinedCollects(c, m, o.done);
    EntriesAfter(o.events, Heading(m));
    if m.sym.Some? {
      EntriesAfter(o.events, Blank);
      EntriesAfter(o.events + (if o.needNewline then [Blank] else []), Line(m.sym.value));
      assert o.events + [] == o.events;
    }
  }

  lemma EntriesParts(c: Config, m: Menu, l: seq<Menu>, n: seq<Menu>, done: set<Sym>, earlier: seq<Event>)
    ensures var done1 := Collected(c, [m], done);
      var done2 := Collected(c, l, done1);
      ((earlier + EntriesOf(c, [m], done)) + EntriesOf(c, l, done1)) + EntriesOf(c, n, done2)
      == earlier + EntriesOf(c, [m] + (l + n), done)
  {
    var done1 := Collected(c, [m], done);
    var done2 := Collected(c, l, done1);
    EntriesOfConcat(c, [m], l + n, done);
    EntriesOfConcat(c, l, n, done1);
    var (x, y, z) := (EntriesOf(c, [m], done), EntriesOf(c, l, done1), EntriesOf(c, n, done2));
    AssociateFour(earlier, x, y, z);
    Associate(earlier, x, y);
    Associate(x, y, z);
  }

  /** Headings and lines follow each other in the order of the menu tree, each node with what it is entitled to. */
  lemma {:induction false} EmitEntries(c: Config, f: Forest, o: Output)
    ensures Entries(Emit(c, f, o).events) == Entries(o.events) + EntriesOf(c, Preorder(f), o.done)
  {
    if f.Node? {
      var o1 := Enter(c, f.menu, o);
      var o2 := Emit(c, f.list, o1);
      EnterEntries(c, f.menu, o);
      EmitEntries(c, f.list, o1);
      EmitLines(c, f.list, o1);
      EntriesAfter(o2.events, EndOf(f.menu));
      EmitEntries(c, f.next, Leave(c, f.menu, o2));
      EntriesParts(c, f.menu, Preorder(f.list), Preorder(f.next), o.done, Entries(o.events));
    }
  }

  /** The node is a menu below the root whose end is marked. */
  predicate Marked(c: Config, m: Menu) {
    m.sym.None? && c.visible(m) && c.isMenu(m) && m != c.root
  }

  lemma EnterEnds(c: Config, m: Menu, o: Output, n: Menu)
    ensures EndOf(n) in Enter(c, m, o).events <==> EndOf(n) in o.events
  {
  }

  /** Exactly the visible menus below the root are closed. */
  lemma {:induction false} EmitEnds(c: Config, f: Forest, o: Output, n: Menu)
    ensures EndOf(n) in Emit(c, f, o).events <==> EndOf(n) in o.events || (n in Preorder(f) && Marked(c, n))
  {
    if f.Node? {
      var o1 := Enter(c, f.menu, o);
      var o2 := Emit(c, f.list, o1);
      EnterEnds(c, f.menu, o, n);
      EmitEnds(c, f.list, o1, n);
      EmitEnds(c, f.next, Leave(c, f.menu, o2), n);
    }
  }

  /** An empty line stands between the end of a menu and the line of a symbol, and nowhere else; the two never follow
      each other directly. */
  predicate Spaced(events: seq<Event>) {
    && (forall i :: 0 <= i < |events| && events[i].Blank? ==>
          0 < i < |events| - 1 && events[i - 1].EndOf? && events[i + 1].Line?)
    && (forall i :: 0 < i < |events| && events[i].Line? ==> !events[i - 1].EndOf?)
  }

  /** The flag says that the end of a menu was written last. */
  predicate SpacedSoFar(o: Output) {
    Spaced(o.events) && (o.needNewline <==> o.events != [] && o.events[|o.events| - 1].EndOf?)
  }

  lemma EnterSpaced(c: Config, m: Menu, o: Output)
    requires SpacedSoFar(o)
    ensures SpacedSoFar(Enter(c, m, o))
  {
    var (old', new') := (o.events, Enter(c, m, o).events);
    assert forall i :: 0 <= i < |old'| ==> new'[i] == old'[i];
  }

  lemma LeaveSpaced(c: Config, m: Menu, o: Output)
    requires SpacedSoFar(o)
    ensures SpacedSoFar(Leave(c, m, o))
  {
    var (old', new') := (o.events, Leave(c, m, o).events);
    assert forall i :: 0 <= i < |old'| ==> new'[i] == old'[i];
  }

  lemma {:induction false} EmitSpaced(c: Config, f: Forest, o: Output)
    requires SpacedSoFar(o)
    ensures SpacedSoFar(Emit(c, f, o))
  {
    if f.Node? {
      var o1 := Enter(c, f.menu, o);
      var o2 := Emit(c, f.list, o1);
      EnterSpaced(c, f.menu, o);
      EmitSpaced(c, f.list, o1);
      LeaveSpaced(c, f.menu, o2);
      EmitSpaced(c, f.next, Leave(c, f.menu, o2));
    }
  }
}
