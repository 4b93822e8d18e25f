/** The menu tree: nodes linked by first child, next sibling and parent, and the shape they represent. */
module MenuTree {
  import opened Sequences
  import opened Wrappers
  import Exprs

  /** A menu node. A node with a prompt is one whose prompt property has a text; sym is the config symbol or
      choice, and None for menus, comments and ifs. */
  class Menu {
    var next: Menu?
    var parent: Menu?
    var list: Menu?
    const hasPrompt: bool
    const sym: Option<Exprs.Sym>

    constructor (s: Option<Exprs.Sym>, prompt: bool)
      ensures next == null && parent == null && list == null && sym == s && hasPrompt == prompt
    {
      next, parent, list := null, null, null;
      hasPrompt, sym := prompt, s;
    }
  }

  /** The shape of a sibling list with everything below it. */
  datatype Forest = Nil | Node(menu: Menu, list: Forest, next: Forest)

  function Append(f: Forest, g: Forest): Forest {
    if f.Nil? then g else Node(f.menu, f.list, Append(f.next, g))
  }

  /** All nodes in preorder, which is the order of the Kconfig file. */
  function Preorder(f: Forest): seq<Menu> {
    if f.Nil? then [] else [f.menu] + (Preorder(f.list) + Preorder(f.next))
  }

  function Nodes(f: Forest): set<Menu> {
    if f.Nil? then {} else {f.menu} + Nodes(f.list) + Nodes(f.next)
  }

  /** No node occurs twice. */
  ghost predicate Proper(f: Forest) {
    f.Node? ==>
      && f.menu !in Nodes(f.list) && f.menu !in Nodes(f.next) && Nodes(f.list) !! Nodes(f.next)
      && Proper(f.list) && Proper(f.next)
  }

  /** The nodes from first up to, but not including, end are the sibling list f under par. */
  ghost predicate Segment(first: Menu?, f: Forest, par: Menu?, end: Menu?)
    reads Nodes(f)
  {
    if f.Nil? then first == end
    else
      && first == f.menu && f.menu.parent == par
      && Segment(f.menu.list, f.list, f.menu, null)
      && Segment(f.menu.next, f.next, par, end)
  }

  /** g is what is left of the sibling list f after some of its first trees. */
  predicate TailOf(g: Forest, f: Forest) {
    g == f || (f.Node? && TailOf(g, f.next))
  }

  /** Only nodes with a prompt have children. */
  predicate Flat(f: Forest) {
    f.Node? ==> (f.list.Node? ==> f.menu.hasPrompt) && Flat(f.list) && Flat(f.next)
  }

  /** The same below the nodes of the list, not for these themselves. */
  predicate FlatBelow(f: Forest) {
    f.Node? ==> Flat(f.list) && FlatBelow(f.next)
  }

  lemma {:induction false} NodesAllocated(f: Forest)
    ensures forall m :: m in Nodes(f) ==> allocated(m)
  {
    if f.Node? {
      NodesAllocated(f.list);
      NodesAllocated(f.next);
      assert allocated(f.menu);
    }
  }

  lemma {:induction false} AppendNodes(f: Forest, g: Forest)
    ensures Preorder(Append(f, g)) == Preorder(f) + Preorder(g)
    ensures Nodes(Append(f, g)) == Nodes(f) + Nodes(g)
  {
    if f.Node? {
      AppendNodes(f.next, g);
    }
  }

  lemma {:induction false} AppendProper(f: Forest, g: Forest)
    ensures Proper(Append(f, g)) <==> Proper(f) && Proper(g) && Nodes(f) !! Nodes(g)
  {
    if f.Node? {
      AppendNodes(f.next, g);
      AppendProper(f.next, g);
    }
  }

  lemma {:induction false} AppendFlat(f: Forest, g: Forest)
    ensures FlatBelow(Append(f, g)) <==> FlatBelow(f) && FlatBelow(g)
    ensures Flat(Append(f, g)) <==> Flat(f) && Flat(g)
  {
    if f.Node? {
      AppendFlat(f.next, g);
    }
  }

  lemma {:induction false} AppendNil(f: Forest)
    ensures Append(f, Nil) == f
  {
    if f.Node? {
      AppendNil(f.next);
    }
  }

  lemma {:induction false} AppendAssociates(f: Forest, g: Forest, h: Forest)
    ensures Append(Append(f, g), h) == Append(f, Append(g, h))
  {
    if f.Node? {
      AppendAssociates(f.next, g, h);
    }
  }

  lemma {:induction false} SegmentJoin(first: Menu?, f: Forest, mid: Menu?, g: Forest, par: Menu?, end: Menu?)
    requires Segment(first, f, par, mid) && Segment(mid, g, par, end)
    ensures Segment(first, Append(f, g), par, end)
  {
    if f.Node? {
      SegmentJoin(f.menu.next, f.next, mid, g, par, end);
    }
  }

  lemma {:induction false} SegmentSplit(first: Menu?, f: Forest, g: Forest, par: Menu?, end: Menu?) returns (mid: Menu?)
    requires Segment(first, Append(f, g), par, end)
    ensures Segment(first, f, par, mid) && Segment(mid, g, par, end)
  {
    if f.Nil? {
      mid := first;
    } else {
      mid := SegmentSplit(f.menu.next, f.next, g, par, end);
    }
  }

  /** The number and the set of the nodes listed by the preorder. */
  lemma {:induction false} PreorderNodes(f: Forest)
    ensures forall m :: m in Preorder(f) <==> m in Nodes(f)
    ensures Proper(f) ==> |Preorder(f)| == |Nodes(f)|
  {
    if f.Node? {
      PreorderNodes(f.list);
      PreorderNodes(f.next);
    }
  }

  lemma {:induction false} TailNodes(g: Forest, f: Forest)
    requires TailOf(g, f)
    ensures Nodes(g) <= Nodes(f)
  {
    if g != f {
      TailNodes(g, f.next);
    }
  }

  /** A cursor between two sibling lists: done, under dpar, lies before it; todo, under tpar, starts at it. */
  ghost predicate Cursor(first: Menu?, done: Forest, dpar: Menu?, menu: Menu?, todo: Forest, tpar: Menu?)
    reads Nodes(done), Nodes(todo)
  {
    && Segment(first, done, dpar, menu) && Segment(menu, todo, tpar, null)
    && Proper(done) && Proper(todo) && Nodes(done) !! Nodes(todo)
  }

  function Tree(menu: Menu, list: Forest): Forest {
    Node(menu, list, Nil)
  }

  /** What a sibling list tells about its first node. */
  lemma HeadFacts(menu: Menu, f: Forest, par: Menu?)
    requires Segment(menu, f, par, null)
    ensures f.Node? && f.menu == menu && menu.parent == par
    ensures Segment(menu.list, f.list, menu, null) && Segment(menu.next, f.next, par, null)
    ensures menu.list == null <==> f.list.Nil?
  {
    assert f.list.Nil? ==> menu.list == null;
  }

  lemma TreeFacts(menu: Menu, list: Forest)
    ensures Preorder(Tree(menu, list)) == [menu] + Preorder(list) && Nodes(Tree(menu, list)) == {menu} + Nodes(list)
    ensures FlatBelow(Tree(menu, list)) <==> Flat(list)
    ensures Flat(Tree(menu, list)) <==> Flat(list) && (list.Node? ==> menu.hasPrompt)
  {
    assert Preorder(list) + Preorder(Nil) == Preorder(list);
  }

  /** The bookkeeping of a round in which the head of todo, grown or shrunk to the tree (menu, list), moves over to done. */
  lemma RoundOrder(done: Forest, menu: Menu, list: Forest, rest: Forest, todo: Forest)
    requires Preorder(Node(menu, list, rest)) == Preorder(todo)
    ensures Preorder(Append(done, Tree(menu, list))) == Preorder(done) + ([menu] + Preorder(list))
    ensures Preorder(Append(done, Tree(menu, list))) + Preorder(rest) == Preorder(done) + Preorder(todo)
  {
    AppendNodes(done, Tree(menu, list));
    TreeFacts(menu, list);
    AssociateFour(Preorder(done), [menu], Preorder(list), Preorder(rest));
  }

  lemma RoundNodes(done: Forest, menu: Menu, list: Forest, rest: Forest, todo: Forest)
    requires Proper(Node(menu, list, rest)) && Nodes(Node(menu, list, rest)) == Nodes(todo)
    ensures Nodes(Append(done, Tree(menu, list))) + Nodes(rest) == Nodes(done) + Nodes(todo)
    ensures Nodes(rest) < Nodes(todo)
  {
    AppendNodes(done, Tree(menu, list));
    TreeFacts(menu, list);
    assert menu in Nodes(todo) && menu !in Nodes(rest);
  }

  lemma RoundFlat(done: Forest, menu: Menu, list: Forest)
    ensures FlatBelow(Append(done, Tree(menu, list))) <==> FlatBelow(done) && Flat(list)
    ensures Flat(Append(done, Tree(menu, list))) <==> Flat(done) && Flat(list) && (list.Node? ==> menu.hasPrompt)
  {
    AppendFlat(done, Tree(menu, list));
    TreeFacts(menu, list);
  }

  /** The children of the first node, moved in front of its successors. */
  lemma SplicedFacts(f: Forest)
    requires f.Node? && Proper(f)
    ensures SameNodes(Node(f.menu, Nil, Append(f.list, f.next)), f)
    ensures Proper(Node(f.menu, Nil, Append(f.list, f.next))) && f.menu !in Nodes(Append(f.list, f.next))
    ensures FlatBelow(f) ==> FlatBelow(Append(f.list, f.next))
  {
    AppendNodes(f.list, f.next);
    AppendProper(f.list, f.next);
    LeafHead(f.menu, Append(f.list, f.next));
    assert Preorder(f) == [f.menu] + (Preorder(f.list) + Preorder(f.next));
    assert Nodes(f) == {f.menu} + (Nodes(f.list) + Nodes(f.next));
    if FlatBelow(f) {
      AppendFlat(f.list, f.next);
      FlatIsFlatBelow(f.list);
    }
  }

  lemma LeafHead(menu: Menu, f: Forest)
    ensures Preorder(Node(menu, Nil, f)) == [menu] + Preorder(f) && Nodes(Node(menu, Nil, f)) == {menu} + Nodes(f)
    ensures Proper(Node(menu, Nil, f)) <==> Proper(f) && menu !in Nodes(f)
  {
    assert Preorder(Nil) + Preorder(f) == Preorder(f);
  }

  /** Both shapes have the same nodes in the same order. */
  ghost predicate SameNodes(f: Forest, g: Forest) {
    Preorder(f) == Preorder(g) && Nodes(f) == Nodes(g)
  }

  /** Replacing the children of the first node by the same nodes in another shape. */
  lemma SwapList(menu: Menu, list: Forest, list': Forest, rest: Forest)
    requires SameNodes(list, list') && Proper(list') && Proper(Node(menu, list, rest))
    ensures Proper(Node(menu, list', rest)) && SameNodes(Node(menu, list', rest), Node(menu, list, rest))
  {
  }

  lemma {:induction false} FlatIsFlatBelow(f: Forest)
    requires Flat(f)
    ensures FlatBelow(f)
  {
    if f.Node? {
      FlatIsFlatBelow(f.next);
    }
  }

  /** The cursor moves on over one tree whose root has the parent of the list before it. */
  lemma CursorMoves(first: Menu?, done: Forest, dpar: Menu?, menu: Menu, list: Forest, todo: Forest, tpar: Menu?)
    requires Segment(first, done, dpar, menu) && menu.parent == dpar && Segment(menu.list, list, menu, null)
    requires Segment(menu.next, todo, tpar, null)
    requires Proper(done) && Proper(Node(menu, list, todo)) && Nodes(done) !! Nodes(Node(menu, list, todo))
    ensures Cursor(first, Append(done, Tree(menu, list)), dpar, menu.next, todo, tpar)
  {
    AppendNodes(done, Tree(menu, list));
    AppendProper(done, Tree(menu, list));
    assert Segment(menu, Tree(menu, list), dpar, menu.next);
    SegmentJoin(first, done, menu, Tree(menu, list), dpar, menu.next);
  }
}

/** menu_finalize: automatic submenus and flattening, as surgery on the links of the tree. */
module MenuFinalize {
  import opened MenuTree
  import opened MenuShape
  import opened Sequences

  class Finalizer {
    /** The outcomes of the tests whether an item belongs into the submenu of a symbol. Every node is finalised once, so
        that no pair of them is tested twice. */
    const belongs: (Menu, Menu) -> bool
    /** The nodes on which menu_finalize has been called, in the order of the calls. */
    ghost var log: seq<Menu>

    constructor (tests: (Menu, Menu) -> bool)
      ensures log == [] && belongs == tests
    {
      belongs, log := tests, [];
    }

    /** What ends up below a node and behind it. Children stay children. A symbol without any gets the longest run of
        following siblings that belong to it. Other nodes stay without children. */
    ghost predicate Submenu(parent: Menu, todo: Forest, kids: Forest, rest: Forest) {
      todo.Node? &&
      if todo.list.Node? then rest == todo.next && SameNodes(kids, todo.list)
      else if parent.sym.Some? then Belong(belongs, parent, kids) && (rest.Node? ==> !belongs(parent, rest.menu))
      else kids == Nil && rest == todo.next
    }

    /** menu_finalize. todo is the sibling list from parent on; afterwards parent has the list kids below it, which is
        its submenu flattened, and rest, a tail of the old siblings, behind it. Every node that ends up under parent
        has been finalised once, in the order of the file; and every node with a prompt that had children has the
        same nodes below it. */
    method Finalize(parent: Menu, ghost todo: Forest, ghost par: Menu?) returns (ghost kids: Forest, ghost rest: Forest)
      requires todo.Node? && Segment(parent, todo, par, null) && Proper(todo)
      modifies this, Nodes(todo)
      ensures Segment(parent, Node(parent, kids, rest), par, null) && Proper(Node(parent, kids, rest))
      ensures TailOf(rest, todo.next)
      ensures SameNodes(Node(parent, kids, rest), todo)
      ensures log == old(log) + ([parent] + Preorder(kids))
      ensures Flat(kids) && Keeps(todo, Node(parent, kids, rest))
      ensures exists below :: kids == Flattened(below) && Submenu(parent, todo, below, rest)
      decreases Nodes(todo), 2
    {
      log := log + [parent];
      ghost var below;
      below, rest := FinalizeBelow(parent, todo, par);
      kids := FlattenBelow(parent, below, rest, par);
      KeepsTwice(todo, Node(parent, below, rest), Node(parent, kids, rest));
    }

    /** The second half of menu_finalize. */
    method FlattenBelow(parent: Menu, ghost below: Forest, ghost rest: Forest, ghost par: Menu?) returns (ghost kids: Forest)
      requires Segment(parent, Node(parent, below, rest), par, null) && Proper(Node(parent, below, rest)) && FlatBelow(below)
      modifies Nodes(below)
      ensures Segment(parent, Node(parent, kids, rest), par, null) && Proper(Node(parent, kids, rest))
      ensures SameNodes(kids, below) && SameNodes(Node(parent, kids, rest), Node(parent, below, rest))
      ensures Flat(kids) && kids == Flattened(below) && Keeps(Node(parent, below, rest), Node(parent, kids, rest))
    {
      NodesAllocated(rest);
      kids := FlattenChildren(parent, below);
      FlattenedExactly(below);
      KeepsList(parent, below, kids, rest);
      SwapList(parent, below, kids, rest);
    }

    /** The first half of menu_finalize: children are finalised, or a symbol without children becomes the head
        of a submenu. */
    method FinalizeBelow(parent: Menu, ghost todo: Forest, ghost par: Menu?) returns (ghost kids: Forest, ghost rest: Forest)
      requires todo.Node? && Segment(parent, todo, par, null) && Proper(todo)
      modifies this, Nodes(todo)
      ensures Segment(parent, Node(parent, kids, rest), par, null) && Proper(Node(parent, kids, rest))
      ensures TailOf(rest, todo.next)
      ensures SameNodes(Node(parent, kids, rest), todo)
      ensures log == old(log) + Preorder(kids)
      ensures FlatBelow(kids) && Keeps(todo, Node(parent, kids, rest))
      ensures Submenu(parent, todo, kids, rest)
      decreases Nodes(todo), 1
    {
      rest := todo.next;
      NodesAllocated(rest);
      if parent.list != null {
        kids := FinalizeChildren(parent, todo.list);
        KeepsList(parent, todo.list, kids, rest);
      } else if parent.sym.Some? {
        kids, rest := CreateSubmenu(parent, rest, par);
        Adopted(parent, todo, kids, rest);
      } else {
        kids := Nil;
      }
    }

    /** The loop that finalises the children of parent one by one; a call may absorb later children. */
    method FinalizeChildren(parent: Menu, ghost kids: Forest) returns (ghost done: Forest)
      requires Segment(parent.list, kids, parent, null) && Proper(kids) && parent !in Nodes(kids)
      modifies this, Nodes(kids)
      ensures Segment(parent.list, done, parent, null) && Proper(done)
      ensures SameNodes(done, kids)
      ensures log == old(log) + Preorder(kids)
      ensures FlatBelow(done) && Keeps(kids, done)
      decreases Nodes(kids), 4
    {
      var menu := parent.list;
      ghost var first, todo := menu, kids;
      done := Nil;
      KeepsItself(kids);
      while menu != null
        invariant parent.list == first && Cursor(first, done, parent, menu, todo, parent) && FlatBelow(done)
        invariant Preorder(done) + Preorder(todo) == Preorder(kids) && Nodes(done) + Nodes(todo) == Nodes(kids)
        invariant log == old(log) + Preorder(done) && Keeps(kids, Append(done, todo))
        decreases Nodes(todo)
      {
        ghost var list, done0, todo0 := Nil, done, todo;
        menu, done, todo, list := FinalizeNext(parent, first, menu, done, todo, parent, old(log));
        KeepsRound(kids, done0, todo0, Append(done, todo));
      }
      AppendNil(done);
    }

    /** One round of either loop over siblings: the node under the cursor is finalised, becomes (or stays) a child
        of parent, and the cursor moves on. */
    method FinalizeNext(parent: Menu, ghost first: Menu?, menu: Menu, ghost done: Forest, ghost todo: Forest,
                        ghost par: Menu?, ghost earlier: seq<Menu>)
      returns (next: Menu?, ghost done': Forest, ghost todo': Forest, ghost list: Forest)
      requires Cursor(first, done, parent, menu, todo, par) && FlatBelow(done) && log == earlier + Preorder(done)
      modifies this, Nodes(todo)
      ensures Cursor(first, done', parent, next, todo', par) && FlatBelow(done') && log == earlier + Preorder(done')
      ensures todo.Node? && TailOf(todo', todo.next) && menu.next == next && EndsWith(done', menu)
      ensures done' == Append(done, Tree(menu, list)) && Keeps(Append(done, todo), Append(done', todo'))
      ensures Preorder(done') + Preorder(todo') == Preorder(done) + Preorder(todo)
      ensures Nodes(done') + Nodes(todo') == Nodes(done) + Nodes(todo) && Nodes(todo') < Nodes(todo)
      decreases Nodes(todo), 3
    {
      list, todo' := FinalizeHere(parent, first, menu, done, todo, par);
      done' := Append(done, Tree(menu, list));
      KeepsBehind(done, todo, Node(menu, list, todo'));
      AppendTree(done, menu, list, todo');
      Associate(earlier, Preorder(done), [menu] + Preorder(list));
      next := TakeUnder(parent, first, menu, done, list, todo', par, todo);
    }

    /** MoveUnder, and what it means for the two lists. */
    method TakeUnder(parent: Menu, ghost first: Menu?, menu: Menu, ghost done: Forest, ghost list: Forest,
                     ghost rest: Forest, ghost par: Menu?, ghost todo: Forest)
      returns (next: Menu?)
      requires Cursor(first, done, parent, menu, Node(menu, list, rest), par) && FlatBelow(done) && Flat(list)
      requires SameNodes(Node(menu, list, rest), todo)
      modifies menu`parent
      ensures var done' := Append(done, Tree(menu, list));
        && Cursor(first, done', parent, next, rest, par) && menu.next == next
        && EndsWith(done', menu) && FlatBelow(done')
        && Preorder(done') == Preorder(done) + ([menu] + Preorder(list))
        && Preorder(done') + Preorder(rest) == Preorder(done) + Preorder(todo)
        && Nodes(done') + Nodes(rest) == Nodes(done) + Nodes(todo)
      ensures Nodes(rest) < Nodes(todo)
    {
      RoundOrder(done, menu, list, rest, todo);
      RoundNodes(done, menu, list, rest, todo);
      RoundFlat(done, menu, list);
      AppendEnds(done, menu, list);
      next := MoveUnder(parent, first, menu, done, list, rest, par);
    }

    /** The recursive call on the node under the cursor. */
    method FinalizeHere(ghost dpar: Menu, ghost first: Menu?, menu: Menu, ghost done: Forest, ghost todo: Forest, ghost par: Menu?)
      returns (ghost list: Forest, ghost rest: Forest)
      requires Cursor(first, done, dpar, menu, todo, par)
      modifies this, Nodes(todo)
      ensures todo.Node? && Cursor(first, done, dpar, menu, Node(menu, list, rest), par)
      ensures TailOf(rest, todo.next)
      ensures SameNodes(Node(menu, list, rest), todo)
      ensures log == old(log) + ([menu] + Preorder(list))
      ensures Flat(list) && Keeps(todo, Node(menu, list, rest))
      decreases Nodes(todo), 3, 0
    {
      NodesAllocated(done);
      list, rest := Finalize(menu, todo, par);
    }

    /** The node under the cursor becomes a child of parent, and the cursor moves on. */
    method MoveUnder(parent: Menu, ghost first: Menu?, menu: Menu, ghost done: Forest, ghost list: Forest,
                     ghost rest: Forest, ghost par: Menu?)
      returns (next: Menu?)
      requires Cursor(first, done, parent, menu, Node(menu, list, rest), par)
      modifies menu`parent
      ensures Cursor(first, Append(done, Tree(menu, list)), parent, next, rest, par) && menu.next == next
    {
      NodesAllocated(done);
      NodesAllocated(list);
      NodesAllocated(rest);
      menu.parent := parent;
      CursorMoves(first, done, parent, menu, list, rest, par);
      next := menu.next;
    }

    /** The branch of menu_finalize for a symbol without children: consecutive siblings that pass the test are
        finalised and become its submenu. */
    method CreateSubmenu(parent: Menu, ghost todo: Forest, ghost par: Menu?) returns (ghost kids: Forest, ghost rest: Forest)
      requires Segment(parent.next, todo, par, null) && Proper(todo) && parent !in Nodes(todo) && parent.list == null
      modifies this, Nodes(todo), parent`list, parent`next
      ensures Segment(parent.list, kids, parent, null) && Segment(parent.next, rest, par, null)
      ensures Proper(kids) && Proper(rest) && Nodes(kids) !! Nodes(rest) && TailOf(rest, todo)
      ensures Preorder(kids) + Preorder(rest) == Preorder(todo) && Nodes(kids) + Nodes(rest) == Nodes(todo)
      ensures log == old(log) + Preorder(kids)
      ensures FlatBelow(kids) && Keeps(todo, Append(kids, rest))
      ensures Belong(belongs, parent, kids) && (rest.Node? ==> !belongs(parent, rest.menu))
      decreases Nodes(todo), 5
    {
      var last;
      last, kids, rest := AbsorbSiblings(parent, todo, par);
      if last != null {
        EndsWithNode(kids, last);
        Adopt(parent, last, kids, rest, par);
      }
    }

    /** The loop over the siblings behind parent, up to the first that does not belong to it. */
    method AbsorbSiblings(parent: Menu, ghost todo: Forest, ghost par: Menu?)
      returns (last: Menu?, ghost kids: Forest, ghost rest: Forest)
      requires Segment(parent.next, todo, par, null) && Proper(todo) && parent !in Nodes(todo)
      modifies this, Nodes(todo)
      ensures Cursor(parent.next, kids, parent, if last == null then parent.next else last.next, rest, par)
      ensures if last == null then kids == Nil else EndsWith(kids, last)
      ensures TailOf(rest, todo)
      ensures Preorder(kids) + Preorder(rest) == Preorder(todo) && Nodes(kids) + Nodes(rest) == Nodes(todo)
      ensures log == old(log) + Preorder(kids)
      ensures FlatBelow(kids) && Keeps(todo, Append(kids, rest))
      ensures Belong(belongs, parent, kids) && (rest.Node? ==> !belongs(parent, rest.menu))
      decreases Nodes(todo), 4
    {
      var menu := parent.next;
      ghost var first := menu;
      last, kids, rest := null, Nil, todo;
      KeepsItself(todo);
      while menu != null
        invariant parent.next == first
        invariant Cursor(first, kids, parent, menu, rest, par) && FlatBelow(kids) && TailOf(rest, todo)
        invariant Preorder(kids) + Preorder(rest) == Preorder(todo) && Nodes(kids) + Nodes(rest) == Nodes(todo)
        invariant log == old(log) + Preorder(kids)
        invariant Keeps(todo, Append(kids, rest)) && Belong(belongs, parent, kids)
        invariant if last == null then kids == Nil && menu == first else EndsWith(kids, last) && last.next == menu
        decreases Nodes(rest)
      {
        if !belongs(parent, menu) {
          break;
        }
        last := menu;
        ghost var list, kids0, before := Nil, kids, rest;
        menu, kids, rest, list := FinalizeNext(parent, first, menu, kids, rest, par, old(log));
        TailTransitive(rest, before, todo);
        KeepsRound(todo, kids0, before, Append(kids, rest));
        BelongAppend(belongs, parent, kids0, Tree(last, list));
      }
    }

    /** The siblings from parent->next to last become the children of parent. */
    method Adopt(parent: Menu, last: Menu, ghost kids: Forest, ghost rest: Forest, ghost par: Menu?)
      requires Cursor(parent.next, kids, parent, last.next, rest, par) && EndsWith(kids, last) && last in Nodes(kids)
      requires parent !in Nodes(kids) && parent !in Nodes(rest)
      modifies parent`list, parent`next, last`next
      ensures Segment(parent.list, kids, parent, null) && Segment(parent.next, rest, par, null)
    {
      NodesAllocated(rest);
      NodesAllocated(kids);
      parent.list := parent.next;
      parent.next := last.next;
      SetEnd(last, null, parent.list, kids, parent, parent.next);
    }

    /** Redirects the link out of a sibling list: last->next = target. */
    method SetEnd(last: Menu, target: Menu?, ghost first: Menu?, ghost f: Forest, ghost par: Menu?, ghost end: Menu?)
      requires Segment(first, f, par, end) && EndsWith(f, last) && Proper(f)
      modifies last`next
      ensures Segment(first, f, par, target) && last.next == target
    {
      ghost var init, list := SplitLast(f, last);
      AppendNodes(init, Tree(last, list));
      AppendProper(init, Tree(last, list));
      ghost var mid := SegmentSplit(first, init, Tree(last, list), par, end);
      NodesAllocated(init);
      NodesAllocated(list);
      last.next := target;
      SegmentJoin(first, init, last, Tree(last, list), par, target);
    }

    /** The flattening loop over the children of parent, including the ones it splices in on the way. */
    method FlattenChildren(parent: Menu, ghost kids: Forest) returns (ghost done: Forest)
      requires Segment(parent.list, kids, parent, null) && Proper(kids) && parent !in Nodes(kids) && FlatBelow(kids)
      modifies Nodes(kids)
      ensures Segment(parent.list, done, parent, null) && Proper(done)
      ensures SameNodes(done, kids)
      ensures Flat(done) && done == Flattened(kids)
    {
      var menu := parent.list;
      ghost var first, todo := menu, kids;
      done := Nil;
      while menu != null
        invariant Cursor(first, done, parent, menu, todo, parent) && parent.list == first && Flat(done) && FlatBelow(todo)
        invariant Preorder(done) + Preorder(todo) == Preorder(kids) && Nodes(done) + Nodes(todo) == Nodes(kids)
        invariant Append(done, Flattened(todo)) == Flattened(kids)
        decreases Nodes(todo)
      {
        menu, done, todo := FlattenNext(parent, first, menu, done, todo);
      }
      AppendNil(done);
    }

    /** One round of the flattening loop: a node without a prompt hands its children to the list it is in. */
    method FlattenNext(parent: Menu, ghost first: Menu?, menu: Menu, ghost done: Forest, ghost todo: Forest)
      returns (next: Menu?, ghost done': Forest, ghost todo': Forest)
      requires Cursor(first, done, parent, menu, todo, parent) && Flat(done) && FlatBelow(todo)
      modifies Nodes(todo)
      ensures Cursor(first, done', parent, next, todo', parent) && Flat(done') && FlatBelow(todo')
      ensures Preorder(done') + Preorder(todo') == Preorder(done) + Preorder(todo)
      ensures Nodes(done') + Nodes(todo') == Nodes(done) + Nodes(todo) && Nodes(todo') < Nodes(todo)
      ensures Append(done', Flattened(todo')) == Append(done, Flattened(todo))
    {
      ghost var list;
      list, todo' := FlattenHere(parent, first, menu, done, todo);
      RoundOrder(done, menu, list, todo', todo);
      RoundNodes(done, menu, list, todo', todo);
      RoundFlat(done, menu, list);
      done' := Append(done, Tree(menu, list));
      AppendTree(done, menu, list, Flattened(todo'));
      next := MoveOver(first, menu, done, list, todo', parent);
    }

    /** The node under the cursor hands its children to the list it is in, unless it has a prompt. */
    method FlattenHere(parent: Menu, ghost first: Menu?, menu: Menu, ghost done: Forest, ghost todo: Forest)
      returns (ghost list: Forest, ghost rest: Forest)
      requires Cursor(first, done, parent, menu, todo, parent) && FlatBelow(todo)
      modifies Nodes(todo)
      ensures Cursor(first, done, parent, menu, Node(menu, list, rest), parent)
      ensures SameNodes(Node(menu, list, rest), todo)
      ensures Flat(list) && (list.Node? ==> menu.hasPrompt) && FlatBelow(rest)
      ensures Flattened(todo) == Node(menu, list, Flattened(rest))
    {
      HeadFacts(menu, todo, parent);
      list, rest := todo.list, todo.next;
      if menu.list != null && !menu.hasPrompt {
        SplicedFacts(todo);
        FlattenedAppend(todo.list, todo.next);
        SpliceKids(parent, first, menu, done, todo);
        list, rest := Nil, Append(todo.list, todo.next);
      }
    }

    /** The cursor moves on within a list. */
    method MoveOver(ghost first: Menu?, menu: Menu, ghost done: Forest, ghost list: Forest, ghost rest: Forest, ghost par: Menu?)
      returns (next: Menu?)
      requires Cursor(first, done, par, menu, Node(menu, list, rest), par)
      ensures Cursor(first, Append(done, Tree(menu, list)), par, next, rest, par)
    {
      CursorMoves(first, done, par, menu, list, rest, par);
      next := menu.next;
    }

    /** Puts the children of the node under the cursor behind it, into the list that holds it. */
    method SpliceKids(parent: Menu, ghost first: Menu?, menu: Menu, ghost done: Forest, ghost todo: Forest)
      requires Cursor(first, done, parent, menu, todo, parent) && todo.Node? && todo.list.Node?
      modifies Nodes(todo)
      ensures Cursor(first, done, parent, menu, Node(menu, Nil, Append(todo.list, todo.next)), parent)
    {
      NodesAllocated(done);
      HeadFacts(menu, todo, parent);
      SplicedFacts(todo);
      var list := menu.list;
      RelinkKids(parent, list, menu, todo.list, menu.next, todo.next);
      NodesAllocated(Append(todo.list, todo.next));
      menu.next := list;
      menu.list := null;
    }

    /** Gives the children in f to parent and links them in front of its list g, which starts at next. */
    method RelinkKids(parent: Menu, list: Menu, ghost menu: Menu, ghost f: Forest, next: Menu?, ghost g: Forest)
      requires Segment(list, f, menu, null) && Segment(next, g, parent, null) && Proper(f) && Nodes(f) !! Nodes(g)
      modifies Nodes(f)
      ensures Segment(list, Append(f, g), parent, null)
    {
      NodesAllocated(g);
      var last := Reparent(list, f, menu, parent);
      EndsWithNode(f, last);
      SetEnd(last, next, list, f, parent, null);
      SegmentJoin(list, f, next, g, parent, null);
    }

    /** The inner loop of the flattening: all children in f get a new parent; returns the last of them. */
    method Reparent(first: Menu, ghost f: Forest, ghost menu: Menu, parent: Menu) returns (last: Menu)
      requires Segment(first, f, menu, null) && Proper(f)
      modifies Nodes(f)
      ensures Segment(first, f, parent, null) && EndsWith(f, last)
    {
      last := first;
      ghost var done, todo := Nil, f;
      while true
        invariant Append(done, todo) == f && todo.Node? && Cursor(first, done, parent, last, todo, menu)
        invariant Nodes(done) + Nodes(todo) == Nodes(f)
        decreases todo
      {
        var next := MoveUnder(parent, first, last, done, todo.list, todo.next, menu);
        AppendNodes(done, Tree(last, todo.list));
        AppendAssociates(done, Tree(last, todo.list), todo.next);
        AppendEnds(done, last, todo.list);
        done, todo := Append(done, Tree(last, todo.list)), todo.next;
        if next == null {
          AppendNil(done);
          break;
        }
        last := next;
      }
    }
  }

  lemma Adopted(parent: Menu, todo: Forest, kids: Forest, rest: Forest)
    requires todo.Node? && todo.menu == parent && todo.list == Nil && Proper(todo) && Proper(kids) && Proper(rest)
    requires Nodes(kids) !! Nodes(rest) && Keeps(todo.next, Append(kids, rest))
    requires Preorder(kids) + Preorder(rest) == Preorder(todo.next) && Nodes(kids) + Nodes(rest) == Nodes(todo.next)
    ensures Proper(Node(parent, kids, rest)) && SameNodes(Node(parent, kids, rest), todo)
    ensures Keeps(todo, Node(parent, kids, rest))
  {
    KeepsAdopt(parent, todo.next, kids, rest);
    LeafHead(parent, todo.next);
    assert Nodes(Node(parent, kids, rest)) == {parent} + (Nodes(kids) + Nodes(rest));
  }

  lemma AppendTree(done: Forest, menu: Menu, list: Forest, rest: Forest)
    ensures Append(Append(done, Tree(menu, list)), rest) == Append(done, Node(menu, list, rest))
  {
    AppendAssociates(done, Tree(menu, list), rest);
  }

  /** last is the root of the last tree of the list. */
  predicate EndsWith(f: Forest, last: Menu) {
    f.Node? && if f.next.Nil? then f.menu == last else EndsWith(f.next, last)
  }

  lemma {:induction false} EndsWithNode(f: Forest, last: Menu)
    requires EndsWith(f, last)
    ensures last in Nodes(f)
  {
    if f.next.Node? {
      EndsWithNode(f.next, last);
    }
  }

  lemma {:induction false} AppendEnds(f: Forest, menu: Menu, list: Forest)
    ensures EndsWith(Append(f, Tree(menu, list)), menu)
  {
    if f.Node? {
      AppendEnds(f.next, menu, list);
    }
  }

  lemma {:induction false} TailTransitive(h: Forest, g: Forest, f: Forest)
    requires g.Node? && TailOf(h, g.next) && TailOf(g, f)
    ensures TailOf(h, f)
  {
    if g != f {
      TailTransitive(h, g, f.next);
    }
  }

  lemma {:induction false} SplitLast(f: Forest, last: Menu) returns (init: Forest, list: Forest)
    requires EndsWith(f, last)
    ensures f == Append(init, Tree(last, list))
  {
    if f.next.Nil? {
      init, list := Nil, f.list;
    } else {
      init, list := SplitLast(f.next, last);
      init := Node(f.menu, f.list, init);
    }
  }
}
