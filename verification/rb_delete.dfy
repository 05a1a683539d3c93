/** Removing a node: splicing it out of the store, and repairing the black height. */
module RbDelete {
  import opened Dict
  import opened RbStore
  import opened RbColors
  import Seqs

  // ----- splicing -----

  /** `x`, the only child of `y`, or the sentinel, takes the place of `y`. */
  ghost function Splice<P>(s: Store<P>, y: P, x: P): (s': Store<P>)
    requires y in s.m && x in s.m && x != y && (s.m[y].parent != s.nil ==> s.m[y].parent in s.m)
    ensures s'.m.Keys == s.m.Keys && s'.nil == s.nil
  {
    Replace(SetParent(s, x, s.m[y].parent), y, x)
  }

  ghost predicate OneChild<P>(t: Tree<P>) { t.Node? && (t.left.Leaf? || t.right.Leaf?) }

  ghost function OnlyChild<P>(t: Tree<P>): Tree<P>
    requires OneChild(t)
  {
    if t.left.Leaf? then t.right else t.left
  }

  lemma Spliced<P>(s: Store<P>, c: Ctx<P>, t: Tree<P>)
    requires Focused(s, c, t) && OneChild(t)
    ensures var x := RootOf(OnlyChild(t), s.nil);
            && t.p in s.m && x in s.m && x != t.p && (s.m[t.p].parent != s.nil ==> s.m[t.p].parent in s.m)
            && var s' := Splice(s, t.p, x);
            && Focused(s', c, OnlyChild(t))
            && (OnlyChild(t).Leaf? ==> s'.m[s.nil].parent == ParentOf(c, s.nil))
            && s'.m[t.p] == s.m[t.p]
  {
    var k := OnlyChild(t);
    var x := RootOf(k, s.nil);
    TreeInStore(s.m, t, ParentOf(c, s.nil), s.nil);
    CtxInStore(s.m, c, t.p, s.nil);
    var s' := Splice(s, t.p, x);
    assert Distinct(k) && IsTree(s.m, k, t.p, s.nil);
    if c.InRight? && c.other.Node? {
      assert c.other.p in Ptrs(c.other) && c.other.p in CtxPtrs(c);
    }
    if k.Node? {
      assert k.p in Ptrs(k) && k.p !in CtxPtrs(c);
    }
    assert forall q :: q in s.m && q != x && (c.Top? || q != c.p) ==> s'.m[q] == s.m[q];
    TreeReparent(s.m, s'.m, k, t.p, ParentOf(c, s.nil), s.nil);
    CtxRehole(s.m, s'.m, c, t.p, x, s.nil);
  }

  // ----- taking over the entry of the successor -----

  /** The path down to the successor: once right at `z`, then left. */
  ghost predicate MinPath<P>(c: Ctx<P>, z: P) {
    if c.InRight? then c.p == z else c.InLeft? && MinPath(c.up, z)
  }

  ghost function EntryAt<P>(c: Ctx<P>, z: P): Entry
    requires MinPath(c, z)
  {
    if c.InRight? then c.entry else EntryAt(c.up, z)
  }

  ghost function Restock<P>(c: Ctx<P>, z: P, e: Entry): Ctx<P>
    requires MinPath(c, z)
  {
    if c.InRight? then InRight(c.up, c.p, c.color, e, c.other)
    else InLeft(Restock(c.up, z, e), c.p, c.color, c.entry, c.other)
  }

  lemma {:induction false} RestockShape<P>(c: Ctx<P>, z: P, e: Entry)
    requires MinPath(c, z)
    ensures var c' := Restock(c, z, e);
            && CtxPtrs(c') == CtxPtrs(c) && (DistinctCtx(c) ==> DistinctCtx(c'))
            && (forall nil :: ParentOf(c', nil) == ParentOf(c, nil))
            && (forall hole :: TopOf(c', hole) == TopOf(c, hole))
            && !c.Top? && !c'.Top? && c'.color == c.color && z in CtxPtrs(c)
  {
    if c.InLeft? {
      RestockShape(c.up, z, e);
    }
  }

  lemma {:induction false} RestockRb<P>(c: Ctx<P>, z: P, e: Entry, h: nat)
    requires MinPath(c, z) && CtxRb(c, h)
    ensures CtxRb(Restock(c, z, e), h)
  {
    if c.InLeft? {
      RestockShape(c.up, z, e);
      RestockRb(c.up, z, e, if c.color == Red then h else h + 1);
    }
  }

  lemma {:induction false} RestockEntries<P>(c: Ctx<P>, z: P, e: Entry) returns (a: seq<Entry>)
    requires MinPath(c, z)
    ensures Pre(c) == a + [EntryAt(c, z)] && Pre(Restock(c, z, e)) == a + [e] && Post(Restock(c, z, e)) == Post(c)
  {
    if c.InLeft? {
      a := RestockEntries(c.up, z, e);
    } else {
      a := Pre(c.up) + Inorder(c.other);
    }
  }

  lemma {:induction false} RestockCtx<P>(m: map<P, Rec<P>>, m': map<P, Rec<P>>, c: Ctx<P>, z: P, e: Entry, hole: P,
                                         nil: P)
    requires MinPath(c, z) && IsCtx(m, c, hole, nil) && DistinctCtx(c)
    requires z in m && z in m' && m'[z] == m[z].(entry := e)
    requires Agree(m, m', CtxPtrs(c) - {z})
    ensures IsCtx(m', Restock(c, z, e), hole, nil)
  {
    RestockShape(c, z, e);
    if c.InLeft? {
      RestockShape(c.up, z, e);
      RestockCtx(m, m', c.up, z, e, c.p, nil);
      TreeFrame(m, m', c.other, c.p, nil);
    } else {
      TreeFrame(m, m', c.other, c.p, nil);
      CtxFrame(m, m', c.up, c.p, nil);
    }
  }

  lemma Restocked<P>(s: Store<P>, c: Ctx<P>, t: Tree<P>, z: P, e: Entry)
    requires Focused(s, c, t) && MinPath(c, z)
    ensures z in s.m && Focused(SetEntry(s, z, e), Restock(c, z, e), t)
    ensures SetEntry(s, z, e).m[s.nil] == s.m[s.nil]
  {
    RestockShape(c, z, e);
    CtxInStore(s.m, c, RootOf(t, s.nil), s.nil);
    TreeInStore(s.m, t, ParentOf(c, s.nil), s.nil);
    var s' := SetEntry(s, z, e);
    TreeFrame(s.m, s'.m, t, ParentOf(c, s.nil), s.nil);
    RestockCtx(s.m, s'.m, c, z, e, RootOf(t, s.nil), s.nil);
  }

  // ----- colours -----

  /** The state of the deletion repair: in the hole one black node is missing on every path.  A red
      root makes up for it by turning black. */
  ghost predicate DeficientAt<P>(c: Ctx<P>, t: Tree<P>, h: nat) {
    CtxRb(c, h + 1) && if BlackRoot(t) then Rb(t, h) else Rb(Blacken(t), h + 1)
  }

  ghost predicate Deficient<P>(c: Ctx<P>, t: Tree<P>) {
    exists h: nat :: DeficientAt(c, t, h)
  }

  /** Splicing out a red node costs nothing; splicing out a black one leaves a deficit. */
  lemma SplicedColours<P>(c: Ctx<P>, t: Tree<P>, h: nat)
    requires OneChild(t) && Rb(t, h) && CtxRb(c, h) && (RedAbove(c) ==> BlackRoot(t))
    ensures t.color == Red ==> Fitted(c, OnlyChild(t))
    ensures t.color == Black ==> Deficient(c, OnlyChild(t))
  {
    var k := OnlyChild(t);
    if t.color == Red {
      assert Rb(k, 0);
    } else {
      assert Rb(k, h - 1);
      assert !BlackRoot(k) ==> Rb(Blacken(k), h);
      assert DeficientAt(c, k, h - 1);
    }
  }

  /** The repair ends at the root or at a red node, which turns black. */
  lemma DeficitPaid<P>(c: Ctx<P>, t: Tree<P>)
    requires Deficient(c, t) && (c.Top? || !BlackRoot(t))
    ensures Fitted(c, Blacken(t))
  {
    var h: nat :| DeficientAt(c, t, h);
    if BlackRoot(t) {
      assert Blacken(t) == t && CtxRb(c, h);
    } else {
      assert Rb(Blacken(t), h + 1) && CtxRb(c, h + 1);
    }
  }

  /** A deficit away from the root has a sibling to draw on. */
  lemma SiblingExists<P>(c: Ctx<P>, t: Tree<P>) returns (h: nat)
    requires Deficient(c, t) && BlackRoot(t) && !c.Top?
    ensures CtxRb(c, h + 1) && Rb(t, h) && c.other.Node? && Rb(c.other, h + 1)
    ensures c.other.color == Red ==> c.color == Black && c.other.left.Node? && c.other.right.Node?
  {
    h :| DeficientAt(c, t, h);
    assert Rb(c.other, h + 1);
    if c.other.Node? && c.other.color == Red {
      assert Rb(c.other.left, h + 1) && Rb(c.other.right, h + 1);
    }
  }

  /** Case 1: a red sibling.  After the rotation the sibling is one of its children, black. */
  ghost function RedSibling<P>(c: Ctx<P>): Ctx<P>
    requires !c.Top? && c.other.Node?
  {
    var w := c.other;
    if c.InLeft?
    then InLeft(InLeft(c.up, w.p, Black, w.entry, w.right), c.p, Red, c.entry, w.left)
    else InRight(InRight(c.up, w.p, Black, w.entry, w.left), c.p, Red, c.entry, w.right)
  }

  lemma RedSiblingOk<P>(c: Ctx<P>, t: Tree<P>)
    requires Deficient(c, t) && BlackRoot(t) && !c.Top? && c.other.Node? && c.other.color == Red
    ensures Deficient(RedSibling(c), t) && RedSibling(c).other.Node? && RedSibling(c).other.color == Black
  {
    var h := SiblingExists(c, t);
    assert Rb(c.other.left, h + 1) && Rb(c.other.right, h + 1) && CtxRb(c.up, h + 2);
    assert CtxRb(RedSibling(c).up, h + 1);
    assert DeficientAt(RedSibling(c), t, h);
  }

  /** Case 2: a black sibling with black children turns red, and the deficit moves up. */
  ghost function MovedUp<P>(c: Ctx<P>, t: Tree<P>): Tree<P>
    requires !c.Top? && c.other.Node?
  {
    var w := c.other.(color := Red);
    if c.InLeft? then Node(t, c.p, c.color, c.entry, w) else Node(w, c.p, c.color, c.entry, t)
  }

  lemma MovedUpOk<P>(c: Ctx<P>, t: Tree<P>)
    requires Deficient(c, t) && BlackRoot(t) && !c.Top? && c.other.Node? && c.other.color == Black
    requires BlackRoot(c.other.left) && BlackRoot(c.other.right)
    ensures Deficient(c.up, MovedUp(c, t))
  {
    var h := SiblingExists(c, t);
    assert Rb(c.other.(color := Red), h);
    if c.color == Red {
      assert Rb(Blacken(MovedUp(c, t)), h + 1);
      assert DeficientAt(c.up, MovedUp(c, t), h);
    } else {
      assert Rb(MovedUp(c, t), h + 1);
      assert DeficientAt(c.up, MovedUp(c, t), h + 1);
    }
  }

  /** Case 3: the sibling's red child is on the near side; a rotation brings it to the far side. */
  ghost function FarSide<P>(c: Ctx<P>): Ctx<P>
    requires !c.Top? && c.other.Node? && (if c.InLeft? then c.other.left.Node? else c.other.right.Node?)
  {
    var w := c.other;
    if c.InLeft?
    then WithOther(c, Node(w.left.left, w.left.p, Black, w.left.entry, Node(w.left.right, w.p, Red, w.entry, w.right)))
    else WithOther(c, Node(Node(w.left, w.p, Red, w.entry, w.right.left), w.right.p, Black, w.right.entry,
                           w.right.right))
  }

  lemma FarSideOk<P>(c: Ctx<P>, t: Tree<P>)
    requires Deficient(c, t) && BlackRoot(t) && !c.Top? && c.other.Node? && c.other.color == Black
    requires if c.InLeft? then BlackRoot(c.other.right) && !BlackRoot(c.other.left)
             else BlackRoot(c.other.left) && !BlackRoot(c.other.right)
    ensures var c' := FarSide(c);
            Deficient(c', t) && c'.other.color == Black
              && !BlackRoot(if c.InLeft? then c'.other.right else c'.other.left)
  {
    var h := SiblingExists(c, t);
    var w := c.other;
    assert Rb(w.left, h) && Rb(w.right, h);
    var near := if c.InLeft? then w.left else w.right;
    assert Rb(near.left, h) && Rb(near.right, h);
    assert Rb(FarSide(c).other, h + 1);
    assert DeficientAt(FarSide(c), t, h);
  }

  /** Case 4: the sibling's far child is red; a rotation at the parent pays the deficit. */
  ghost function Paid<P>(c: Ctx<P>, t: Tree<P>): Tree<P>
    requires !c.Top? && c.other.Node? && (if c.InLeft? then c.other.right.Node? else c.other.left.Node?)
  {
    var w := c.other;
    if c.InLeft?
    then Node(Node(t, c.p, Black, c.entry, w.left), w.p, c.color, w.entry, w.right.(color := Black))
    else Node(w.left.(color := Black), w.p, c.color, w.entry, Node(w.right, c.p, Black, c.entry, t))
  }

  lemma PaidOk<P>(c: Ctx<P>, t: Tree<P>)
    requires Deficient(c, t) && BlackRoot(t) && !c.Top? && c.other.Node? && c.other.color == Black
    requires !BlackRoot(if c.InLeft? then c.other.right else c.other.left)
    ensures Fitted(c.up, Paid(c, t))
  {
    var h := SiblingExists(c, t);
    var w := c.other;
    assert Rb(w.left, h) && Rb(w.right, h);
    var far := if c.InLeft? then w.right else w.left;
    assert Rb(far.(color := Black), h + 1);
    var low := if c.InLeft? then Node(t, c.p, Black, c.entry, w.left) else Node(w.right, c.p, Black, c.entry, t);
    assert Rb(low, h + 1);
    assert Rb(Paid(c, t), if c.color == Red then h + 1 else h + 2);
  }

  // ----- order -----

  lemma RedSiblingEntries<P>(c: Ctx<P>, t: Tree<P>)
    requires !c.Top? && c.other.Node?
    ensures Inorder(Plug(RedSibling(c), t)) == Inorder(Plug(c, t))
    ensures var p := Lift(WithColor(WithOther(c, c.other.(color := Black)), Red), t);
            && (c.InLeft? ==> Plug(RedSibling(c), t) == Plug(c.up, Lefted(p)))
            && (c.InRight? ==> Plug(RedSibling(c), t) == Plug(c.up, Righted(p)))
  {
    var p := Lift(WithColor(WithOther(c, c.other.(color := Black)), Red), t);
    assert Inorder(c.other.(color := Black)) == Inorder(c.other);
    assert Inorder(p) == Inorder(Lift(c, t));
    RotatedInorder(p);
    SameInorder(c.up, Lift(c, t), if c.InLeft? then Lefted(p) else Righted(p));
  }

  lemma MovedUpEntries<P>(c: Ctx<P>, t: Tree<P>)
    requires !c.Top? && c.other.Node?
    ensures Inorder(Plug(c.up, MovedUp(c, t))) == Inorder(Plug(c, t))
  {
    assert Inorder(c.other.(color := Red)) == Inorder(c.other);
    SameInorder(c.up, Lift(c, t), MovedUp(c, t));
  }

  lemma FarSideEntries<P>(c: Ctx<P>, t: Tree<P>)
    requires !c.Top? && c.other.Node? && (if c.InLeft? then c.other.left.Node? else c.other.right.Node?)
    ensures Inorder(Plug(FarSide(c), t)) == Inorder(Plug(c, t))
  {
    RotatedInorder(c.other);
    assert Inorder(FarSide(c).other) == Inorder(c.other);
    SameInorder(c.up, Lift(c, t), Lift(FarSide(c), t));
  }

  lemma PaidEntries<P>(c: Ctx<P>, t: Tree<P>)
    requires !c.Top? && c.other.Node? && (if c.InLeft? then c.other.right.Node? else c.other.left.Node?)
    ensures Inorder(Plug(c.up, Paid(c, t))) == Inorder(Plug(c, t))
  {
    var p := Lift(c, t);
    RotatedInorder(p);
    var w := c.other;
    assert c.InLeft? ==> Inorder(w.right.(color := Black)) == Inorder(w.right);
    assert c.InRight? ==> Inorder(w.left.(color := Black)) == Inorder(w.left);
    assert Inorder(Paid(c, t)) == Inorder(if c.InLeft? then Lefted(p) else Righted(p));
    SameInorder(c.up, p, Paid(c, t));
  }

  // ----- the sibling in focus -----

  /** The context of the other side. */
  ghost function Aside<P>(c: Ctx<P>, t: Tree<P>): Ctx<P>
    requires !c.Top?
  {
    if c.InLeft? then InRight(c.up, c.p, c.color, c.entry, t) else InLeft(c.up, c.p, c.color, c.entry, t)
  }

  lemma ToSibling<P>(s: Store<P>, c: Ctx<P>, t: Tree<P>)
    requires Focused(s, c, t) && !c.Top?
    ensures Focused(s, Aside(c, t), c.other)
  {
    Up(s, c, t);
    if c.InLeft? { DownRight(s, c.up, Lift(c, t)); } else { DownLeft(s, c.up, Lift(c, t)); }
  }

  lemma FromSibling<P>(s: Store<P>, c: Ctx<P>, t: Tree<P>, o: Tree<P>)
    requires !c.Top? && Focused(s, Aside(c, t), o)
    ensures Focused(s, WithOther(c, o), t)
  {
    ToSibling(s, Aside(c, t), o);
  }

  // ----- the entries of a removal -----

  /** Taking out a node with at most one child. */
  lemma SplicedEntries<P>(c: Ctx<P>, t: Tree<P>)
    requires OneChild(t) && Sorted(Inorder(Plug(c, t)))
    ensures var es := Inorder(Plug(c, OnlyChild(t)));
            Sorted(es) && AsMap(es) == AsMap(Inorder(Plug(c, t))) - {t.entry.key}
  {
    EntriesAround(c, t);
    PlugInorder(c, OnlyChild(t));
    var a, b := Pre(c) + Inorder(t.left), Inorder(t.right) + Post(c);
    RemovedEntries(a, t.entry, b);
    if t.left.Leaf? {
      Seqs.Assoc(Pre(c), Inorder(t.right), Post(c));
      assert a == Pre(c);
    } else {
      assert b == Post(c);
    }
  }

  /** Taking out the successor after its entry has replaced that of `z`. */
  lemma SuccessorEntries<P>(c: Ctx<P>, t: Tree<P>, z: P)
    requires t.Node? && t.left.Leaf? && MinPath(c, z) && Sorted(Inorder(Plug(c, t)))
    ensures var es := Inorder(Plug(Restock(c, z, t.entry), t.right));
            Sorted(es) && AsMap(es) == AsMap(Inorder(Plug(c, t))) - {EntryAt(c, z).key}
  {
    var a := RestockEntries(c, z, t.entry);
    var c' := Restock(c, z, t.entry);
    var e := EntryAt(c, z);
    PlugInorder(c, t);
    PlugInorder(c', t.right);
    var b := ([t.entry] + Inorder(t.right)) + Post(c);
    assert Inorder(t) == [t.entry] + Inorder(t.right);
    Seqs.Assoc(a + [e], [t.entry] + Inorder(t.right), Post(c));
    Seqs.Assoc(a, [t.entry], Inorder(t.right));
    Seqs.Assoc(a, [t.entry] + Inorder(t.right), Post(c));
    RemovedEntries(a, e, b);
  }

  /** A node no longer linked in can change without harm. */
  lemma Detached<P>(s: Store<P>, c: Ctx<P>, t: Tree<P>, y: P, e: Entry)
    requires Focused(s, c, t) && y in s.m && y != s.nil && y !in Ptrs(t) && y !in CtxPtrs(c)
    ensures Focused(SetEntry(s, y, e), c, t)
  {
    TreeInStore(s.m, t, ParentOf(c, s.nil), s.nil);
    CtxInStore(s.m, c, RootOf(t, s.nil), s.nil);
    TreeFrame(s.m, SetEntry(s, y, e).m, t, ParentOf(c, s.nil), s.nil);
    CtxFrame(s.m, SetEntry(s, y, e).m, c, RootOf(t, s.nil), s.nil);
  }

  lemma FittedRest<P>(c: Ctx<P>, t: Tree<P>)
    requires Fitted(c, t) && (c.Top? ==> BlackRoot(t))
    ensures RbTree(Plug(c, t))
  {
    var h: nat :| Rb(t, h) && CtxRb(c, h) && (RedAbove(c) ==> BlackRoot(t));
    var h' := PlugRb(c, t, h);
  }

  /** Which colours remain after the splice. */
  lemma SpliceCase<P>(c: Ctx<P>, t: Tree<P>)
    requires OneChild(t) && RbTree(Plug(c, t))
    ensures t.color == Red ==> RbTree(Plug(c, OnlyChild(t)))
    ensures t.color == Black ==> Deficient(c, OnlyChild(t))
  {
    var h0: nat :| Rb(Plug(c, t), h0);
    var h := UnplugRb(c, t, h0);
    SplicedColours(c, t, h);
    if t.color == Red {
      FittedRest(c, OnlyChild(t));
    }
  }

  lemma RestockCase<P>(c: Ctx<P>, t: Tree<P>, z: P, e: Entry)
    requires MinPath(c, z)
    ensures RbTree(Plug(c, t)) ==> RbTree(Plug(Restock(c, z, e), t))
    ensures Deficient(c, t) ==> Deficient(Restock(c, z, e), t)
  {
    if RbTree(Plug(c, t)) {
      var h0: nat :| Rb(Plug(c, t), h0);
      var h := UnplugRb(c, t, h0);
      RestockRb(c, z, e, h);
      RestockShape(c, z, e);
      var h' := PlugRb(Restock(c, z, e), t, h);
    }
    if Deficient(c, t) {
      var h: nat :| DeficientAt(c, t, h);
      RestockRb(c, z, e, h + 1);
      assert DeficientAt(Restock(c, z, e), t, h);
    }
  }

  ghost function Depth<P>(c: Ctx<P>): nat { if c.Top? then 0 else 1 + Depth(c.up) }

  lemma DepthUp<P>(c: Ctx<P>)
    requires !c.Top?
    ensures Depth(c) == Depth(c.up) + 1
  {}

  lemma BlackenEntries<P>(c: Ctx<P>, t: Tree<P>)
    ensures Inorder(Plug(c, Blacken(t))) == Inorder(Plug(c, t))
  {
    assert Inorder(Blacken(t)) == Inorder(t);
    SameInorder(c, t, Blacken(t));
  }
}
