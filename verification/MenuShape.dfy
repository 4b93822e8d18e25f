/** What finalising does to the shape of the menu tree. */
module MenuShape {
  import opened MenuTree

  /** The nodes below a node, in preorder. */
  function Descendants(f: Forest, m: Menu): seq<Menu> {
    if f.Nil? then []
    else if f.menu == m then Preorder(f.list)
    else if m in Nodes(f.list) then Descendants(f.list, m)
    else Descendants(f.next, m)
  }

  /** Nodes with a prompt that have children keep everything below them, in its order. */
  ghost predicate Keeps(f: Forest, g: Forest) {
    forall m {:trigger Descendants(g, m)} ::
      m in Nodes(f) && m.hasPrompt && Descendants(f, m) != [] ==> Descendants(g, m) == Descendants(f, m)
  }

  lemma {:induction false} DescendantsAppend(f: Forest, g: Forest, m: Menu)
    ensures Descendants(Append(f, g), m) == if m in Nodes(f) then Descendants(f, m) else Descendants(g, m)
  {
    if f.Node? {
      DescendantsAppend(f.next, g, m);
    }
  }

  lemma KeepsItself(f: Forest)
    ensures Keeps(f, f)
  {
  }

  lemma KeepsTwice(f: Forest, g: Forest, h: Forest)
    requires Keeps(f, g) && Keeps(g, h) && Nodes(f) <= Nodes(g)
    ensures Keeps(f, h)
  {
    forall m | m in Nodes(f) && m.hasPrompt && Descendants(f, m) != []
      ensures Descendants(h, m) == Descendants(f, m)
    {
      assert Descendants(g, m) == Descendants(f, m);
    }
  }

  /** A round of a loop over siblings, seen from the start of the loop. */
  lemma KeepsRound(f: Forest, done: Forest, todo: Forest, h: Forest)
    requires Keeps(f, Append(done, todo)) && Keeps(Append(done, todo), h) && Nodes(done) + Nodes(todo) == Nodes(f)
    ensures Keeps(f, h)
  {
    var g := Append(done, todo);
    assert Nodes(g) == Nodes(f) by {
      AppendNodes(done, todo);
    }
    KeepsTwice(f, g, h);
  }

  /** In front of both stand the same trees. */
  lemma KeepsBehind(done: Forest, f: Forest, g: Forest)
    requires Keeps(f, g)
    ensures Keeps(Append(done, f), Append(done, g))
  {
    AppendNodes(done, f);
    forall m | m in Nodes(Append(done, f)) && m.hasPrompt && Descendants(Append(done, f), m) != []
      ensures Descendants(Append(done, g), m) == Descendants(Append(done, f), m)
    {
      DescendantsAppend(done, f, m);
      DescendantsAppend(done, g, m);
    }
  }

  /** The first node has the same nodes below it, in another shape. */
  lemma KeepsList(menu: Menu, list: Forest, list': Forest, rest: Forest)
    requires Keeps(list, list') && SameNodes(list, list')
    ensures Keeps(Node(menu, list, rest), Node(menu, list', rest))
  {
  }

  /** The first node, which had no children, adopts some of its siblings. */
  lemma KeepsAdopt(menu: Menu, todo: Forest, kids: Forest, rest: Forest)
    requires Keeps(todo, Append(kids, rest)) && menu !in Nodes(todo)
    ensures Keeps(Node(menu, Nil, todo), Node(menu, kids, rest))
  {
    var (f, g) := (Node(menu, Nil, todo), Node(menu, kids, rest));
    forall m | m in Nodes(f) && m.hasPrompt && Descendants(f, m) != []
      ensures Descendants(g, m) == Descendants(f, m)
    {
      if m != menu {
        DescendantsAppend(kids, rest, m);
      }
    }
  }

  // ---------- flattening ----------

  /** Nodes without a prompt hand their children to the list that they are in. */
  function Flattened(f: Forest): Forest {
    if f.Nil? then Nil
    else if f.list.Node? && !f.menu.hasPrompt then Node(f.menu, Nil, Append(Flattened(f.list), Flattened(f.next)))
    else Node(f.menu, f.list, Flattened(f.next))
  }

  lemma {:induction false} FlattenedAppend(f: Forest, g: Forest)
    ensures Flattened(Append(f, g)) == Append(Flattened(f), Flattened(g))
  {
    if f.Node? {
      FlattenedAppend(f.next, g);
      AppendAssociates(Flattened(f.list), Flattened(f.next), Flattened(g));
    }
  }

  lemma {:induction false} FlatStays(f: Forest)
    requires Flat(f)
    ensures Flattened(f) == f
  {
    if f.Node? {
      FlatStays(f.next);
    }
  }

  /** Afterwards a node with a prompt has the same nodes below it, and one without has none; no node is lost, and the
      order is the same. */
  lemma {:induction false} FlattenedExactly(f: Forest)
    requires Proper(f) && FlatBelow(f)
    ensures SameNodes(Flattened(f), f)
    ensures forall m :: m in Nodes(f) ==> Descendants(Flattened(f), m) == if m.hasPrompt then Descendants(f, m) else []
    ensures Keeps(f, Flattened(f))
  {
    if f.Node? {
      FlattenedExactly(f.next);
      FlatStays(f.list);
      if f.list.Node? && !f.menu.hasPrompt {
        AppendNodes(f.list, Flattened(f.next));
        LeafHead(f.menu, Append(f.list, Flattened(f.next)));
      }
      forall m | m in Nodes(f)
        ensures Descendants(Flattened(f), m) == if m.hasPrompt then Descendants(f, m) else []
      {
        DescendantsAppend(f.list, Flattened(f.next), m);
        if m in Nodes(f.list) && !m.hasPrompt {
          FlatDescendants(f.list, m);
        }
      }
    }
  }

  lemma {:induction false} FlatDescendants(f: Forest, m: Menu)
    requires Flat(f) && m in Nodes(f) && !m.hasPrompt
    ensures Descendants(f, m) == []
  {
    if f.menu != m {
      if m in Nodes(f.list) {
        FlatDescendants(f.list, m);
      } else {
        FlatDescendants(f.next, m);
      }
    }
  }

  // ---------- submenus ----------

  /** All trees of the list have roots that belong to the node. */
  predicate Belong(belongs: (Menu, Menu) -> bool, parent: Menu, f: Forest) {
    f.Node? ==> belongs(parent, f.menu) && Belong(belongs, parent, f.next)
  }

  lemma {:induction false} BelongAppend(belongs: (Menu, Menu) -> bool, parent: Menu, f: Forest, g: Forest)
    ensures Belong(belongs, parent, Append(f, g)) <==> Belong(belongs, parent, f) && Belong(belongs, parent, g)
  {
    if f.Node? {
      BelongAppend(belongs, parent, f.next, g);
    }
  }
}
