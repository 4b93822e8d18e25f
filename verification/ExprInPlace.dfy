/** The rewrites in the form the program gives them: trees changed in place through slots. A slot is the path
    to a child pointer; two slots of the same tree may lie inside each other or coincide. */
module InPlace {
  import opened Wrappers
  import opened Exprs
  import opened Elimination
  import opened Duplicates
  import opened Transformation

  datatype Side = LeftSide | RightSide
  type Slot = seq<Side>

  predicate IsSlot(e: Expr, p: Slot) {
    p == [] || match e
               case Bin(_, l, r) => IsSlot(if p[0].LeftSide? then l else r, p[1..])
               case Not(a) => p[0].LeftSide? && IsSlot(a, p[1..])
               case _ => false
  }

  /** The expression in a slot. */
  function At(e: Expr, p: Slot): Expr
    requires IsSlot(e, p)
  {
    if p == [] then e
    else if e.Not? then At(e.arg, p[1..])
    else At(if p[0].LeftSide? then e.left else e.right, p[1..])
  }

  /** The tree after x has been stored in a slot. */
  function Put(e: Expr, p: Slot, x: Expr): (r: Expr)
    requires IsSlot(e, p)
    ensures IsSlot(r, p) && At(r, p) == x
  {
    if p == [] then x
    else if e.Not? then Not(Put(e.arg, p[1..], x))
    else if p[0].LeftSide? then Bin(e.op, Put(e.left, p[1..], x), e.right)
    else Bin(e.op, e.left, Put(e.right, p[1..], x))
  }

  lemma {:induction false} SlotInSlot(e: Expr, p: Slot, q: Slot)
    requires IsSlot(e, p)
    ensures IsSlot(e, p + q) <==> IsSlot(At(e, p), q)
    ensures IsSlot(e, p + q) ==> At(e, p + q) == At(At(e, p), q)
    ensures IsSlot(e, p + q) ==> forall x :: Put(e, p + q, x) == Put(e, p, Put(At(e, p), q, x))
  {
    if p == [] {
      assert p + q == q;
    } else {
      assert (p + q)[1..] == p[1..] + q;
      SlotInSlot(if e.Not? then e.arg else if p[0].LeftSide? then e.left else e.right, p[1..], q);
    }
  }

  lemma {:induction false} PutTwice(e: Expr, p: Slot, x: Expr, y: Expr)
    requires IsSlot(e, p)
    ensures Put(Put(e, p, x), p, y) == Put(e, p, y)
    ensures Put(e, p, At(e, p)) == e
  {
    if p != [] {
      PutTwice(if e.Not? then e.arg else if p[0].LeftSide? then e.left else e.right, p[1..], x, y);
    }
  }

  // ---------- slots of the operands at one level ----------

  /** The node in a slot child of a compound. */
  function Child(t: Expr, side: Side): Expr
    requires t.Bin?
  {
    if side.LeftSide? then t.left else t.right
  }

  /** Slot p of t is reached through nodes of kind op only. */
  predicate InSpine(op: Op, t: Expr, p: Slot) {
    p == [] || (IsOp(op, t) && InSpine(op, Child(t, p[0]), p[1..]))
  }

  /** The part of t below slot p. */
  function Below(op: Op, t: Expr, p: Slot): Expr
    requires InSpine(op, t, p)
  {
    if p == [] then t else Below(op, Child(t, p[0]), p[1..])
  }

  /** The position, among the leaves of t, of the first leaf below slot p. */
  function First(op: Op, t: Expr, p: Slot): (i: nat)
    requires InSpine(op, t, p)
    ensures i + |Leaves(op, Below(op, t, p))| <= |Leaves(op, t)|
  {
    if p == [] then 0
    else if p[0].LeftSide? then First(op, t.left, p[1..])
    else |Leaves(op, t.left)| + First(op, t.right, p[1..])
  }

  function Last(op: Op, t: Expr, p: Slot): (i: nat)
    requires InSpine(op, t, p)
    ensures First(op, t, p) < i <= |Leaves(op, t)|
  {
    First(op, t, p) + |Leaves(op, Below(op, t, p))|
  }

  /** Below a slot that holds a node of kind op lie two more slots, whose leaves follow each other. */
  lemma {:induction false} SplitSlot(op: Op, t: Expr, p: Slot)
    requires InSpine(op, t, p) && IsOp(op, Below(op, t, p))
    ensures InSpine(op, t, p + [LeftSide]) && InSpine(op, t, p + [RightSide])
    ensures Below(op, t, p + [LeftSide]) == Below(op, t, p).left && Below(op, t, p + [RightSide]) == Below(op, t, p).right
    ensures First(op, t, p + [LeftSide]) == First(op, t, p)
    ensures First(op, t, p + [RightSide]) == Last(op, t, p + [LeftSide])
    ensures Last(op, t, p + [RightSide]) == Last(op, t, p)
  {
    if p == [] {
      assert [LeftSide][1..] == [] && [RightSide][1..] == [];
      assert InSpine(op, t.left, []) && InSpine(op, t.right, []);
    } else {
      SplitSlot(op, Child(t, p[0]), p[1..]);
      assert (p + [LeftSide])[1..] == p[1..] + [LeftSide];
      assert (p + [RightSide])[1..] == p[1..] + [RightSide];
    }
  }

  /** A tree of the shape of t has the same slots; at a leaf slot it holds the leaf of that position. */
  lemma {:induction false} ReadSlot(op: Op, t: Expr, ls: seq<Expr>, p: Slot)
    requires |ls| == |Leaves(op, t)| && AreLeaves(op, ls) && InSpine(op, t, p)
    ensures IsSlot(Rebuild(op, t, ls), p)
    ensures IsOp(op, At(Rebuild(op, t, ls), p)) <==> IsOp(op, Below(op, t, p))
    ensures !IsOp(op, Below(op, t, p)) ==> At(Rebuild(op, t, ls), p) == ls[First(op, t, p)]
  {
    if p != [] {
      var n := |Leaves(op, t.left)|;
      ReadSlot(op, Child(t, p[0]), if p[0].LeftSide? then ls[..n] else ls[n..], p[1..]);
    }
  }

  /** Storing an operand in a leaf slot changes that one leaf. */
  lemma {:induction false} WriteSlot(op: Op, t: Expr, ls: seq<Expr>, p: Slot, x: Expr)
    requires |ls| == |Leaves(op, t)| && AreLeaves(op, ls) && !IsOp(op, x)
    requires InSpine(op, t, p) && !IsOp(op, Below(op, t, p)) && IsSlot(Rebuild(op, t, ls), p)
    ensures Put(Rebuild(op, t, ls), p, x) == Rebuild(op, t, ls[First(op, t, p) := x])
  {
    if p != [] {
      var n, i := |Leaves(op, t.left)|, First(op, t, p);
      if p[0].LeftSide? {
        WriteSlot(op, t.left, ls[..n], p[1..], x);
        assert ls[i := x][..n] == ls[..n][i := x] && ls[i := x][n..] == ls[n..];
      } else {
        WriteSlot(op, t.right, ls[n..], p[1..], x);
        assert ls[i := x][..n] == ls[..n] && ls[i := x][n..] == ls[n..][i - n := x];
      }
    }
  }

  /** Different leaf slots hold different leaves. */
  lemma {:induction false} LeafSlotsDiffer(op: Op, t: Expr, p: Slot, q: Slot)
    requires InSpine(op, t, p) && InSpine(op, t, q)
    requires !IsOp(op, Below(op, t, p)) && !IsOp(op, Below(op, t, q))
    ensures First(op, t, p) == First(op, t, q) <==> p == q
  {
    if p != [] && q != [] && p[0] == q[0] {
      LeafSlotsDiffer(op, Child(t, p[0]), p[1..], q[1..]);
    }
  }

  // ---------- the double loop, split like the double walk ----------

  lemma {:induction false} RowSplits(op: Op, ls: seq<Expr>, i: nat, j: nat, m: nat, d: nat)
    requires AreLeaves(op, ls) && i < |ls| && j <= m <= d <= |ls|
    ensures var p := JoinRow(op, ls, i, j, m);
      var q := JoinRow(op, p.ls, i, m, d);
      JoinRow(op, ls, i, j, d) == Pass(q.ls, p.count + q.count)
    decreases m - j
  {
    if j < m {
      RowSplits(op, JoinAt(op, ls, i, j).ls, i, j + 1, m, d);
    }
  }

  lemma {:induction false} RowsSplit(op: Op, ls: seq<Expr>, i: nat, m: nat, b: nat, c: nat, d: nat)
    requires AreLeaves(op, ls) && i <= m <= b <= |ls| && c <= d <= |ls|
    ensures var p := JoinRows(op, ls, i, m, c, d);
      var q := JoinRows(op, p.ls, m, b, c, d);
      JoinRows(op, ls, i, b, c, d) == Pass(q.ls, p.count + q.count)
    decreases m - i
  {
    if i < m {
      RowsSplit(op, JoinRow(op, ls, i, c, d).ls, i + 1, m, b, c, d);
    }
  }

  lemma OneRow(op: Op, ls: seq<Expr>, i: nat, c: nat, d: nat)
    requires AreLeaves(op, ls) && i < |ls| && c <= d <= |ls|
    ensures JoinRows(op, ls, i, i + 1, c, d) == JoinRow(op, ls, i, c, d)
  {
    assert JoinRows(op, JoinRow(op, ls, i, c, d).ls, i + 1, i + 1, c, d).count == 0;
  }

  lemma OneRowSplits(op: Op, ls: seq<Expr>, i: nat, c: nat, m: nat, d: nat)
    requires AreLeaves(op, ls) && i < |ls| && c <= m <= d <= |ls|
    ensures var p := JoinRows(op, ls, i, i + 1, c, m);
      var q := JoinRows(op, p.ls, i, i + 1, m, d);
      JoinRows(op, ls, i, i + 1, c, d) == Pass(q.ls, p.count + q.count)
  {
    OneRow(op, ls, i, c, d);
    OneRow(op, ls, i, c, m);
    OneRow(op, JoinRow(op, ls, i, c, m).ls, i, m, d);
    RowSplits(op, ls, i, c, m, d);
  }

  lemma OneCell(op: Op, ls: seq<Expr>, i: nat, j: nat)
    requires AreLeaves(op, ls) && i < |ls| && j < |ls|
    ensures JoinRows(op, ls, i, i + 1, j, j + 1) == JoinAt(op, ls, i, j)
  {
    OneRow(op, ls, i, j, j + 1);
    assert JoinRow(op, JoinAt(op, ls, i, j).ls, i, j + 1, j + 1).count == 0;
  }

  /** The child slots of a compound, and what storing in them means for the compound itself. */
  lemma ChildSlots(root: Expr, p: Slot, l: Expr, r: Expr)
    requires IsSlot(root, p) && At(root, p).Bin?
    ensures IsSlot(root, p + [LeftSide]) && IsSlot(root, p + [RightSide])
    ensures At(root, p + [LeftSide]) == At(root, p).left && At(root, p + [RightSide]) == At(root, p).right
    ensures Put(root, p + [LeftSide], l) == Put(root, p, Bin(At(root, p).op, l, At(root, p).right))
    ensures Put(root, p + [RightSide], r) == Put(root, p, Bin(At(root, p).op, At(root, p).left, r))
  {
    SlotInSlot(root, p, [LeftSide]);
    SlotInSlot(root, p, [RightSide]);
    PutChild(At(root, p), l, r);
  }

  lemma PutChild(e: Expr, l: Expr, r: Expr)
    requires e.Bin?
    ensures IsSlot(e, [LeftSide]) && At(e, [LeftSide]) == e.left && Put(e, [LeftSide], l) == Bin(e.op, l, e.right)
    ensures IsSlot(e, [RightSide]) && At(e, [RightSide]) == e.right && Put(e, [RightSide], r) == Bin(e.op, e.left, r)
  {
    assert [LeftSide][1..] == [] && [RightSide][1..] == [];
    assert IsSlot(e.left, []) && At(e.left, []) == e.left && Put(e.left, [], l) == l;
    assert IsSlot(e.right, []) && At(e.right, []) == e.right && Put(e.right, [], r) == r;
  }

  /** The child slot of a negation. */
  lemma ArgSlot(root: Expr, p: Slot, a: Expr)
    requires IsSlot(root, p) && At(root, p).Not?
    ensures IsSlot(root, p + [LeftSide]) && At(root, p + [LeftSide]) == At(root, p).arg
    ensures Put(root, p + [LeftSide], a) == Put(root, p, Not(a))
  {
    var e := At(root, p);
    assert [LeftSide][1..] == [];
    assert IsSlot(e.arg, []) && At(e.arg, []) == e.arg && Put(e.arg, [], a) == a;
    assert IsSlot(e, [LeftSide]) && At(e, [LeftSide]) == e.arg && Put(e, [LeftSide], a) == Not(a);
    SlotInSlot(root, p, [LeftSide]);
  }

  // ---------- the optimiser ----------

  /** The block of the double loop that the walk from slots p1 and p2 is responsible for. */
  ghost function Walk(op: Op, t: Expr, ls: seq<Expr>, p1: Slot, p2: Slot): (p: Pass)
    requires InSpine(op, t, p1) && InSpine(op, t, p2) && |ls| == |Leaves(op, t)| && AreLeaves(op, ls)
    ensures PassOf(op, ls, p)
  {
    JoinRows(op, ls, First(op, t, p1), Last(op, t, p1), First(op, t, p2), Last(op, t, p2))
  }

  lemma WalkSplits1(op: Op, t: Expr, ls: seq<Expr>, p1: Slot, p2: Slot)
    requires InSpine(op, t, p1) && InSpine(op, t, p2) && |ls| == |Leaves(op, t)| && AreLeaves(op, ls)
    requires IsOp(op, Below(op, t, p1))
    ensures InSpine(op, t, p1 + [LeftSide]) && InSpine(op, t, p1 + [RightSide])
    ensures var p := Walk(op, t, ls, p1 + [LeftSide], p2);
      var q := Walk(op, t, p.ls, p1 + [RightSide], p2);
      Walk(op, t, ls, p1, p2) == Pass(q.ls, p.count + q.count)
    ensures Below(op, t, p1 + [LeftSide]) == Below(op, t, p1).left && Below(op, t, p1 + [RightSide]) == Below(op, t, p1).right
  {
    SplitSlot(op, t, p1);
    RowsSplit(op, ls, First(op, t, p1), Last(op, t, p1 + [LeftSide]), Last(op, t, p1), First(op, t, p2), Last(op, t, p2));
  }

  lemma WalkSplits2(op: Op, t: Expr, ls: seq<Expr>, p1: Slot, p2: Slot)
    requires InSpine(op, t, p1) && InSpine(op, t, p2) && |ls| == |Leaves(op, t)| && AreLeaves(op, ls)
    requires !IsOp(op, Below(op, t, p1)) && IsOp(op, Below(op, t, p2))
    ensures InSpine(op, t, p2 + [LeftSide]) && InSpine(op, t, p2 + [RightSide])
    ensures var p := Walk(op, t, ls, p1, p2 + [LeftSide]);
      var q := Walk(op, t, p.ls, p1, p2 + [RightSide]);
      Walk(op, t, ls, p1, p2) == Pass(q.ls, p.count + q.count)
    ensures Below(op, t, p2 + [LeftSide]) == Below(op, t, p2).left && Below(op, t, p2 + [RightSide]) == Below(op, t, p2).right
  {
    SplitSlot(op, t, p2);
    OneRowSplits(op, ls, First(op, t, p1), First(op, t, p2), Last(op, t, p2 + [LeftSide]), Last(op, t, p2));
  }

  lemma WalkAtLeaves(op: Op, t: Expr, ls: seq<Expr>, p1: Slot, p2: Slot)
    requires InSpine(op, t, p1) && InSpine(op, t, p2) && |ls| == |Leaves(op, t)| && AreLeaves(op, ls)
    requires !IsOp(op, Below(op, t, p1)) && !IsOp(op, Below(op, t, p2))
    ensures Walk(op, t, ls, p1, p2) == JoinAt(op, ls, First(op, t, p1), First(op, t, p2))
    ensures p1 == p2 ==> Walk(op, t, ls, p1, p2) == Pass(ls, 0)
  {
    OneCell(op, ls, First(op, t, p1), First(op, t, p2));
  }

  /** Slot base of the tree holds the operands ls in the shape t; elsewhere the tree is like origin. */
  ghost predicate SlotHolds(root: Expr, origin: Expr, base: Slot, op: Op, t: Expr, ls: seq<Expr>) {
    && |ls| == |Leaves(op, t)| && AreLeaves(op, ls)
    && IsSlot(origin, base) && root == Put(origin, base, Rebuild(op, t, ls))
  }

  lemma LoadLeaf(root: Expr, origin: Expr, base: Slot, op: Op, t: Expr, ls: seq<Expr>, p: Slot)
    requires SlotHolds(root, origin, base, op, t, ls) && InSpine(op, t, p)
    ensures IsSlot(root, base + p) && (IsOp(op, At(root, base + p)) <==> IsOp(op, Below(op, t, p)))
    ensures !IsOp(op, Below(op, t, p)) ==> At(root, base + p) == ls[First(op, t, p)]
  {
    ReadSlot(op, t, ls, p);
    SlotInSlot(root, base, p);
  }

  lemma StoreLeaf(root: Expr, origin: Expr, base: Slot, op: Op, t: Expr, ls: seq<Expr>, p: Slot, x: Expr)
    requires SlotHolds(root, origin, base, op, t, ls) && InSpine(op, t, p) && !IsOp(op, Below(op, t, p)) && !IsOp(op, x)
    ensures IsSlot(root, base + p)
    ensures SlotHolds(Put(root, base + p, x), origin, base, op, t, ls[First(op, t, p) := x])
  {
    ReadSlot(op, t, ls, p);
    SlotInSlot(root, base, p);
    WriteSlot(op, t, ls, p, x);
    PutTwice(origin, base, Rebuild(op, t, ls), Rebuild(op, t, ls[First(op, t, p) := x]));
  }

  /** The expression being worked on and the counter of simplifications. */
  class Optimiser {
    var root: Expr
    var transCount: nat

    constructor (e: Expr)
      ensures root == e && transCount == 0
    {
      root := e;
      transCount := 0;
    }

    /** expr_eliminate_yn on the expression in a slot. */
    method EliminateYnAt(p: Slot)
      requires IsSlot(root, p)
      modifies this`root
      ensures root == Put(old(root), p, EliminateYn(At(old(root), p)))
      decreases At(root, p)
    {
      var e := At(root, p);
      PutTwice(root, p, e, e);
      if e.Bin? {
        ghost var origin := root;
        ghost var l, r := EliminateYn(e.left), EliminateYn(e.right);
        ChildSlots(root, p, l, r);
        EliminateYnAt(p + [LeftSide]);
        ChildSlots(root, p, l, r);
        PutTwice(origin, p, Bin(e.op, l, e.right), Bin(e.op, l, r));
        EliminateYnAt(p + [RightSide]);
        PutTwice(origin, p, Bin(e.op, l, r), EliminateYn(e));
        var op, left, right := At(root, p).op, At(root, p).left, At(root, p).right;
        if left == Symbol(Zero(op)) {
          root := Put(root, p, Symbol(Zero(op)));
        } else if left == Symbol(Unit(op)) {
          root := Put(root, p, right);
        } else if right == Symbol(Zero(op)) {
          root := Put(root, p, Symbol(Zero(op)));
        } else if right == Symbol(Unit(op)) {
          root := Put(root, p, left);
        }
      }
    }

    /** expr_trans_bool on the expression in a slot. */
    method TransBoolAt(p: Slot)
      requires IsSlot(root, p)
      modifies this`root
      ensures root == Put(old(root), p, TransBool(At(old(root), p)))
      decreases At(root, p)
    {
      var e := At(root, p);
      PutTwice(root, p, e, e);
      ghost var origin := root;
      if e.Bin? {
        ghost var l, r := TransBool(e.left), TransBool(e.right);
        ChildSlots(root, p, l, r);
        TransBoolAt(p + [LeftSide]);
        ChildSlots(root, p, l, r);
        PutTwice(origin, p, Bin(e.op, l, e.right), Bin(e.op, l, r));
        TransBoolAt(p + [RightSide]);
      } else if e.Not? {
        ArgSlot(root, p, TransBool(e.arg));
        TransBoolAt(p + [LeftSide]);
      } else if e.Compare? && e.rel.Unequal? && e.lsym.typ.Tristate? && e.rsym == SYM_NO {
        root := Put(root, p, Symbol(e.lsym));
      }
    }

    /** expr_transform on the expression in a slot: children first, then the node, which De Morgan's laws may
        rebuild and transform again. */
    method TransformAt(p: Slot)
      requires IsSlot(root, p)
      modifies this`root
      ensures root == Put(old(root), p, Transform(At(old(root), p)))
      decreases Weight(At(root, p))
    {
      var e := At(root, p);
      PutTwice(root, p, e, e);
      ghost var origin := root;
      if e.Bin? {
        ghost var l, r := Transform(e.left), Transform(e.right);
        ChildSlots(root, p, l, r);
        TransformAt(p + [LeftSide]);
        ChildSlots(root, p, l, r);
        PutTwice(origin, p, Bin(e.op, l, e.right), Bin(e.op, l, r));
        TransformAt(p + [RightSide]);
      } else if e.Compare? {
        root := Put(root, p, TransformTest(e));
      } else if e.Not? {
        ArgSlot(root, p, Transform(e.arg));
        TransformAt(p + [LeftSide]);
        TransformNot(p, origin, e);
      }
    }

    /** The E_NOT branch of expr_transform, after the operand has been transformed. */
    method TransformNot(p: Slot, ghost origin: Expr, ghost e: Expr)
      requires IsSlot(origin, p) && e.Not? && root == Put(origin, p, Not(Transform(e.arg)))
      modifies this`root
      ensures root == Put(origin, p, Transform(e))
      decreases Weight(e), 0
    {
      var a := At(root, p).arg;
      if a.Not? {
        root := Put(root, p, a.arg);
        PutTwice(origin, p, Not(a), a.arg);
        TransformAt(p);
        PutTwice(origin, p, a.arg, Transform(e));
      } else if a.Bin? {
        DeMorganLighter(a.op, a.left, a.right);
        root := Put(root, p, Bin(Dual(a.op), Not(a.left), Not(a.right)));
        PutTwice(origin, p, Not(a), Bin(Dual(a.op), Not(a.left), Not(a.right)));
        TransformAt(p);
        PutTwice(origin, p, Bin(Dual(a.op), Not(a.left), Not(a.right)), Transform(e));
      } else {
        PutTwice(origin, p, Not(a), Transform(e));
        if a.Compare? {
          root := Put(root, p, Compare(Complement(a.rel), a.lsym, a.rsym));
        } else if a.sym == SYM_YES {
          root := Put(root, p, Symbol(SYM_NO));
        } else if a.sym == SYM_MOD {
          root := Put(root, p, Symbol(SYM_MOD));
        } else if a.sym == SYM_NO {
          root := Put(root, p, Symbol(SYM_YES));
        }
      }
    }

    /** expr_eliminate_dups1: walks the slots base+p1 and base+p2 of the same tree down to leaves and joins those
        in place. The walk does what the corresponding block of the double loop over the operands does, although
        it overwrites operands that either cursor has yet to reach. */
    method EliminateDups1(op: Op, base: Slot, p1: Slot, p2: Slot,
                          ghost origin: Expr, ghost t: Expr, ghost ls: seq<Expr>, ghost bound: nat)
      requires SlotHolds(root, origin, base, op, t, ls) && InSpine(op, t, p1) && InSpine(op, t, p2)
      requires TotalSize(ls) <= bound
      modifies this
      ensures var p := Walk(op, t, ls, p1, p2);
        SlotHolds(root, origin, base, op, t, p.ls) && transCount == old(transCount) + p.count
      decreases bound, |Leaves(op, Below(op, t, p1))| + |Leaves(op, Below(op, t, p2))|
    {
      LoadLeaf(root, origin, base, op, t, ls, p1);
      LoadLeaf(root, origin, base, op, t, ls, p2);
      var e1, e2 := At(root, base + p1), At(root, base + p2);
      if IsOp(op, e1) {
        WalkSplits1(op, t, ls, p1, p2);
        EliminateDups1(op, base, p1 + [LeftSide], p2, origin, t, ls, bound);
        EliminateDups1(op, base, p1 + [RightSide], p2, origin, t, Walk(op, t, ls, p1 + [LeftSide], p2).ls, bound);
        return;
      }
      if IsOp(op, e2) {
        WalkSplits2(op, t, ls, p1, p2);
        EliminateDups1(op, base, p1, p2 + [LeftSide], origin, t, ls, bound);
        EliminateDups1(op, base, p1, p2 + [RightSide], origin, t, Walk(op, t, ls, p1, p2 + [LeftSide]).ls, bound);
        return;
      }
      WalkAtLeaves(op, t, ls, p1, p2);
      if p1 != p2 {
        JoinLeaves(op, base, p1, p2, origin, t, ls, bound);
      }
    }

    /** The part of expr_eliminate_dups1 that deals with two different leaves. */
    method JoinLeaves(op: Op, base: Slot, p1: Slot, p2: Slot,
                      ghost origin: Expr, ghost t: Expr, ghost ls: seq<Expr>, ghost bound: nat)
      requires SlotHolds(root, origin, base, op, t, ls) && InSpine(op, t, p1) && InSpine(op, t, p2)
      requires !IsOp(op, Below(op, t, p1)) && !IsOp(op, Below(op, t, p2)) && p1 != p2
      requires TotalSize(ls) <= bound
      modifies this
      ensures var p := JoinAt(op, ls, First(op, t, p1), First(op, t, p2));
        SlotHolds(root, origin, base, op, t, p.ls) && transCount == old(transCount) + p.count
      decreases bound, 0
    {
      ghost var i, j := First(op, t, p1), First(op, t, p2);
      LeafSlotsDiffer(op, t, p1, p2);
      LoadLeaf(root, origin, base, op, t, ls, p1);
      var e1 := At(root, base + p1);
      TotalSizeUpdate(ls, i, e1);
      ghost var ls1 := ls[i := if e1.Bin? then DupsPass(e1).0 else e1];
      if e1.Bin? {
        PassInLeaf(op, base, p1, origin, t, ls, bound);
      }
      assert !e1.Bin? ==> ls1 == ls;
      LoadLeaf(root, origin, base, op, t, ls1, p1);
      LoadLeaf(root, origin, base, op, t, ls1, p2);
      var tmp := Join(op, At(root, base + p1), At(root, base + p2));
      if tmp.Some? {
        ghost var ls2 := ls1[i := Symbol(Unit(op))];
        StoreLeaf(root, origin, base, op, t, ls1, p1, Symbol(Unit(op)));
        root := Put(root, base + p1, Symbol(Unit(op)));
        StoreLeaf(root, origin, base, op, t, ls2, p2, tmp.value);
        root := Put(root, base + p2, tmp.value);
        transCount := transCount + 1;
        assert ls2 == ls[i := Symbol(Unit(op))];
      }
    }

    /** The recursive call on an operand that is a compound of the other operator. */
    method PassInLeaf(op: Op, base: Slot, p1: Slot, ghost origin: Expr, ghost t: Expr, ghost ls: seq<Expr>, ghost bound: nat)
      requires SlotHolds(root, origin, base, op, t, ls) && InSpine(op, t, p1)
      requires !IsOp(op, Below(op, t, p1)) && ls[First(op, t, p1)].Bin?
      requires Size(ls[First(op, t, p1)]) <= bound
      modifies this
      ensures var e1 := ls[First(op, t, p1)];
        && SlotHolds(root, origin, base, op, t, ls[First(op, t, p1) := DupsPass(e1).0])
        && transCount == old(transCount) + DupsPass(e1).1
      decreases bound, 0, 0
    {
      LoadLeaf(root, origin, base, op, t, ls, p1);
      var e1 := At(root, base + p1);
      ghost var inner := Leaves(e1.op, e1);
      LeavesSize(e1.op, e1);
      RebuildSame(e1.op, e1);
      PutTwice(root, base + p1, e1, e1);
      StoreLeaf(root, origin, base, op, t, ls, p1, DupsPass(e1).0);
      EliminateDups1(e1.op, base + p1, [], [], root, e1, inner, Size(e1) - 1);
    }

    /** expr_eliminate_dups: the loop of passes, with the counter saved around it. */
    method EliminateDups()
      modifies this
      ensures root == Duplicates.EliminateDups(old(root))
      ensures transCount == old(transCount)
    {
      var oldCount := transCount;
      while true
        invariant Duplicates.EliminateDups(root) == Duplicates.EliminateDups(old(root))
        decreases Size(root)
      {
        transCount := 0;
        ghost var e := root;
        if root.Bin? {
          ghost var ls := Leaves(root.op, root);
          RebuildSame(root.op, root);
          EliminateDups1(root.op, [], [], [], root, root, ls, TotalSize(ls));
        }
        assert (root, transCount) == DupsRound(e);
        if transCount == 0 {
          break;
        }
        DupsRoundShrinks(e);
        EliminateYnAt([]);
      }
      transCount := oldCount;
    }
  }

  lemma EliminateEq1Left(op: Op, s: Expr, e: Expr, l: Expr, m: Expr, r: Expr, f: Expr)
    requires IsOp(op, s) && EliminateEq1(op, s.left, e) == (l, m) && EliminateEq1(op, s.right, m) == (r, f)
    ensures EliminateEq1(op, s, e) == (Bin(op, l, r), f)
  {
  }

  lemma EliminateEq1Right(op: Op, s: Expr, e: Expr, m: Expr, l: Expr, f: Expr, r: Expr)
    requires !IsOp(op, s) && IsOp(op, e)
    requires EliminateEq1(op, s, e.left) == (m, l) && EliminateEq1(op, m, e.right) == (f, r)
    ensures EliminateEq1(op, s, e) == (f, Bin(op, l, r))
  {
  }

  /** The two separate trees that expr_eliminate_eq works on. */
  class Eliminator {
    var tree1: Expr
    var tree2: Expr
    var transCount: nat

    constructor (e1: Expr, e2: Expr)
      ensures tree1 == e1 && tree2 == e2 && transCount == 0
    {
      tree1, tree2, transCount := e1, e2, 0;
    }

    /** __expr_eliminate_eq: walks slot p1 of the first and p2 of the second tree down to leaves, and overwrites
        both of two equal leaves. */
    method EliminateEq1(op: Op, p1: Slot, p2: Slot)
      requires IsSlot(tree1, p1) && IsSlot(tree2, p2)
      modifies this
      ensures var r := Elimination.EliminateEq1(op, At(old(tree1), p1), At(old(tree2), p2));
        tree1 == Put(old(tree1), p1, r.0) && tree2 == Put(old(tree2), p2, r.1)
      ensures transCount >= old(transCount)
      ensures transCount == old(transCount) ==> tree1 == old(tree1) && tree2 == old(tree2)
      decreases Size(At(tree1, p1)) + Size(At(tree2, p2)), 1
    {
      var e1, e2 := At(tree1, p1), At(tree2, p2);
      PutTwice(tree1, p1, e1, e1);
      PutTwice(tree2, p2, e2, e2);
      if IsOp(op, e1) {
        DescendFirst(op, p1, p2);
      } else if IsOp(op, e2) {
        DescendSecond(op, p1, p2);
      } else if e1.Symbol? && e2.Symbol? && e1.sym == e2.sym && (e1.sym == SYM_YES || e1.sym == SYM_NO) {
        return;
      } else if ExprEq(e1, e2) {
        transCount := transCount + 1;
        tree1 := Put(tree1, p1, Symbol(Unit(op)));
        tree2 := Put(tree2, p2, Symbol(Unit(op)));
      }
    }

    /** The branch of __expr_eliminate_eq that goes down the first tree. */
    method DescendFirst(op: Op, p1: Slot, p2: Slot)
      requires IsSlot(tree1, p1) && IsSlot(tree2, p2) && IsOp(op, At(tree1, p1))
      modifies this
      ensures var r := Elimination.EliminateEq1(op, At(old(tree1), p1), At(old(tree2), p2));
        tree1 == Put(old(tree1), p1, r.0) && tree2 == Put(old(tree2), p2, r.1)
      ensures transCount >= old(transCount)
      ensures transCount == old(transCount) ==> tree1 == old(tree1) && tree2 == old(tree2)
      decreases Size(At(tree1, p1)) + Size(At(tree2, p2)), 0
    {
      ghost var e1, e2 := At(tree1, p1), At(tree2, p2);
      ghost var (l, m) := Elimination.EliminateEq1(op, e1.left, e2);
      ghost var (r, f) := Elimination.EliminateEq1(op, e1.right, m);
      EliminateEq1Left(op, e1, e2, l, m, r, f);
      PutTwice(tree1, p1, Bin(op, l, e1.right), Bin(op, l, r));
      PutTwice(tree2, p2, m, f);
      ChildSlots(tree1, p1, l, r);
      EliminateEq1(op, p1 + [LeftSide], p2);
      ChildSlots(tree1, p1, l, r);
      EliminateEq1(op, p1 + [RightSide], p2);
    }

    /** The branch of __expr_eliminate_eq that goes down the second tree. */
    method DescendSecond(op: Op, p1: Slot, p2: Slot)
      requires IsSlot(tree1, p1) && IsSlot(tree2, p2) && !IsOp(op, At(tree1, p1)) && IsOp(op, At(tree2, p2))
      modifies this
      ensures var r := Elimination.EliminateEq1(op, At(old(tree1), p1), At(old(tree2), p2));
        tree1 == Put(old(tree1), p1, r.0) && tree2 == Put(old(tree2), p2, r.1)
      ensures transCount >= old(transCount)
      ensures transCount == old(transCount) ==> tree1 == old(tree1) && tree2 == old(tree2)
      decreases Size(At(tree1, p1)) + Size(At(tree2, p2)), 0
    {
      ghost var e1, e2 := At(tree1, p1), At(tree2, p2);
      ghost var (m, l) := Elimination.EliminateEq1(op, e1, e2.left);
      ghost var (f, r) := Elimination.EliminateEq1(op, m, e2.right);
      EliminateEq1Right(op, e1, e2, m, l, f, r);
      PutTwice(tree2, p2, Bin(op, l, e2.right), Bin(op, l, r));
      PutTwice(tree1, p1, m, f);
      ChildSlots(tree2, p2, l, r);
      EliminateEq1(op, p1, p2 + [LeftSide]);
      ChildSlots(tree2, p2, l, r);
      EliminateEq1(op, p1, p2 + [RightSide]);
    }

    /** expr_eliminate_eq: a pass at the operator of the first tree, one at that of the second if it differs, and
        the removal of y and n operands. */
    method EliminateEq()
      modifies this
      ensures (tree1, tree2) == Elimination.EliminateEq(old(tree1), old(tree2))
    {
      if tree1.Bin? {
        EliminateEq1(tree1.op, [], []);
      }
      if tree2.Bin? && !IsOp(tree2.op, tree1) {
        EliminateEq1(tree2.op, [], []);
      }
      tree1, tree2 := EliminateYn(tree1), EliminateYn(tree2);
    }
  }
}
