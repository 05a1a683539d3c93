/** The nodes of a red-black tree in order, through the hole of a context; and a node that takes
    another's place in the store. */
module RbLine {
  import opened RbStore
  import opened RbColors
  import opened RbDelete
  import opened Dict
  import Seqs

  ghost function Line<P>(t: Tree<P>): seq<P> {
    if t.Leaf? then [] else Line(t.left) + [t.p] + Line(t.right)
  }

  /** The nodes before and after the hole. */
  ghost function Before<P>(c: Ctx<P>): seq<P> {
    match c
    case Top => []
    case InLeft(up, _, _, _, _) => Before(up)
    case InRight(up, p, _, _, other) => Before(up) + (Line(other) + [p])
  }

  ghost function After<P>(c: Ctx<P>): seq<P> {
    match c
    case Top => []
    case InLeft(up, p, _, _, other) => ([p] + Line(other)) + After(up)
    case InRight(up, _, _, _, _) => After(up)
  }

  lemma {:induction false} PlugLine<P>(c: Ctx<P>, t: Tree<P>)
    ensures Line(Plug(c, t)) == Before(c) + Line(t) + After(c)
    decreases c
  {
    match c
    case Top =>
    case InLeft(up, p, color, entry, other) =>
      PlugLine(up, Node(t, p, color, entry, other));
      Seqs.Assoc(Line(t), [p], Line(other));
      Seqs.Assoc(Before(up), Line(t), [p] + Line(other));
      Seqs.Assoc(Before(up) + Line(t), [p] + Line(other), After(up));
    case InRight(up, p, color, entry, other) =>
      PlugLine(up, Node(other, p, color, entry, t));
      Seqs.Assoc(Before(up), Line(other) + [p], Line(t));
  }

  lemma RotatedLine<P>(t: Tree<P>)
    ensures t.Node? && t.right.Node? ==> Line(Lefted(t)) == Line(t)
    ensures t.Node? && t.left.Node? ==> Line(Righted(t)) == Line(t)
  {
    if t.Node? && t.right.Node? {
      var y := t.right;
      Reassoc(Line(t.left) + [t.p], Line(y.left), [y.p], Line(y.right));
    }
    if t.Node? && t.left.Node? {
      var x := t.left;
      Reassoc(Line(x.left) + [x.p], Line(x.right), [t.p], Line(t.right));
    }
  }

  lemma SameLine<P>(c: Ctx<P>, t: Tree<P>, t': Tree<P>)
    requires Line(t) == Line(t')
    ensures Line(Plug(c, t)) == Line(Plug(c, t'))
  {
    PlugLine(c, t);
    PlugLine(c, t');
  }

  // ----- the steps of the repairs keep the line -----

  lemma RecolourLine<P>(c: Ctx<P>, t: Tree<P>)
    requires !c.Top? && !c.up.Top? && c.up.other.Node?
    ensures Line(Plug(c.up.up, Recoloured(c, t))) == Line(Plug(c, t))
  {
    var g := Lift(c.up, Lift(c, t));
    assert Line(Lift(c, t).(color := Black)) == Line(Lift(c, t))
      && Line(c.up.other.(color := Black)) == Line(c.up.other);
    assert Plug(c, t) == Plug(c.up, Lift(c, t)) == Plug(c.up.up, g);
    SameLine(c.up.up, g, Recoloured(c, t));
  }

  lemma OuterLine<P>(c: Ctx<P>, t: Tree<P>)
    requires (c.InLeft? && c.up.InLeft?) || (c.InRight? && c.up.InRight?)
    ensures Line(Plug(c.up.up, Outer(c, t))) == Line(Plug(c, t))
  {
    var g0 := Lift(c.up, Lift(c, t));
    var g, p := Swapped(c, t), Lift(c, t);
    assert Line(p.(color := Black)) == Line(p);
    assert Line(g) == Line(g0);
    RotatedLine(g);
    assert Plug(c, t) == Plug(c.up, Lift(c, t)) == Plug(c.up.up, g0);
    SameLine(c.up.up, g0, Outer(c, t));
  }

  lemma InnerLine<P>(c: Ctx<P>, t: Tree<P>)
    requires !c.Top? && t.Node?
    ensures c.InRight? ==> Line(Plug(c.up, Lefted(Lift(c, t)))) == Line(Plug(c, t))
    ensures c.InLeft? ==> Line(Plug(c.up, Righted(Lift(c, t)))) == Line(Plug(c, t))
  {
    var p := Lift(c, t);
    RotatedLine(p);
    assert Plug(c, t) == Plug(c.up, p);
    SameLine(c.up, p, if c.InRight? then Lefted(p) else Righted(p));
  }

  lemma RedSiblingLine<P>(c: Ctx<P>, t: Tree<P>)
    requires !c.Top? && c.other.Node?
    ensures Line(Plug(RedSibling(c), t)) == Line(Plug(c, t))
  {
    var p := Lift(WithColor(WithOther(c, c.other.(color := Black)), Red), t);
    assert Line(c.other.(color := Black)) == Line(c.other);
    assert Line(p) == Line(Lift(c, t));
    RotatedLine(p);
    RedSiblingEntries(c, t);
    SameLine(c.up, Lift(c, t), if c.InLeft? then Lefted(p) else Righted(p));
  }

  lemma MovedUpLine<P>(c: Ctx<P>, t: Tree<P>)
    requires !c.Top? && c.other.Node?
    ensures Line(Plug(c.up, MovedUp(c, t))) == Line(Plug(c, t))
  {
    assert Line(c.other.(color := Red)) == Line(c.other);
    SameLine(c.up, Lift(c, t), MovedUp(c, t));
  }

  lemma FarSideLine<P>(c: Ctx<P>, t: Tree<P>)
    requires !c.Top? && c.other.Node? && (if c.InLeft? then c.other.left.Node? else c.other.right.Node?)
    ensures Line(Plug(FarSide(c), t)) == Line(Plug(c, t))
  {
    RotatedLine(c.other);
    assert Line(FarSide(c).other) == Line(c.other);
    SameLine(c.up, Lift(c, t), Lift(FarSide(c), t));
  }

  lemma PaidLine<P>(c: Ctx<P>, t: Tree<P>)
    requires !c.Top? && c.other.Node? && (if c.InLeft? then c.other.right.Node? else c.other.left.Node?)
    ensures Line(Plug(c.up, Paid(c, t))) == Line(Plug(c, t))
  {
    var p := Lift(c, t);
    RotatedLine(p);
    var w := c.other;
    assert c.InLeft? ==> Line(w.right.(color := Black)) == Line(w.right);
    assert c.InRight? ==> Line(w.left.(color := Black)) == Line(w.left);
    assert Line(Paid(c, t)) == Line(if c.InLeft? then Lefted(p) else Righted(p));
    SameLine(c.up, p, Paid(c, t));
  }

  lemma BlackenLine<P>(c: Ctx<P>, t: Tree<P>)
    ensures Line(Plug(c, Blacken(t))) == Line(Plug(c, t))
  {
    assert Line(Blacken(t)) == Line(t);
    SameLine(c, t, Blacken(t));
  }

  /** The nodes on either side of the focused one. */
  lemma LineAround<P>(c: Ctx<P>, t: Tree<P>)
    requires t.Node?
    ensures Line(Plug(c, t)) == (Before(c) + Line(t.left)) + [t.p] + (Line(t.right) + After(c))
  {
    PlugLine(c, t);
    var a, b, e, d, f := Before(c), Line(t.left), [t.p], Line(t.right), After(c);
    Seqs.Assoc(a, b + e, d);
    Seqs.Assoc(a, b, e);
    Seqs.Assoc(a + b + e, d, f);
  }

  lemma {:induction false} LinePtrs<P>(t: Tree<P>)
    ensures forall p :: p in Line(t) <==> p in Ptrs(t)
  {
    if t.Node? {
      LinePtrs(t.left);
      LinePtrs(t.right);
    }
  }

  /** Taking out a node with at most one child. */
  lemma SplicedLine<P>(c: Ctx<P>, t: Tree<P>)
    requires OneChild(t)
    ensures Line(Plug(c, OnlyChild(t))) == (Before(c) + Line(t.left)) + (Line(t.right) + After(c))
  {
    PlugLine(c, OnlyChild(t));
    if t.left.Leaf? {
      Seqs.Assoc(Before(c), Line(t.right), After(c));
      assert Before(c) + Line(t.left) == Before(c);
    } else {
      assert Line(t.right) + After(c) == After(c);
    }
  }

  // ----- another node in the place of one on the path -----

  ghost function Rename<P>(c: Ctx<P>, z: P, y: P, e: Entry): Ctx<P>
    requires MinPath(c, z)
  {
    if c.InRight? then InRight(c.up, y, c.color, e, c.other)
    else InLeft(Rename(c.up, z, y, e), c.p, c.color, c.entry, c.other)
  }

  lemma {:induction false} RenameShape<P>(c: Ctx<P>, z: P, y: P, e: Entry)
    requires MinPath(c, z)
    ensures var c' := Rename(c, z, y, e); !c.Top? && !c'.Top? && c'.color == c.color && z in CtxPtrs(c)
    ensures var c' := Rename(c, z, y, e); c'.p == if c.InRight? then y else c.p
  {
    if c.InLeft? {
      RenameShape(c.up, z, y, e);
    }
  }

  lemma {:induction false} RenameRb<P>(c: Ctx<P>, z: P, y: P, e: Entry, h: nat)
    requires MinPath(c, z) && CtxRb(c, h)
    ensures CtxRb(Rename(c, z, y, e), h)
  {
    if c.InLeft? {
      RenameShape(c.up, z, y, e);
      RenameRb(c.up, z, y, e, if c.color == Red then h else h + 1);
    }
  }

  lemma {:induction false} RenameLine<P>(c: Ctx<P>, z: P, y: P, e: Entry) returns (a: seq<P>)
    requires MinPath(c, z)
    ensures Before(c) == a + [z] && Before(Rename(c, z, y, e)) == a + [y] && After(Rename(c, z, y, e)) == After(c)
  {
    if c.InLeft? {
      a := RenameLine(c.up, z, y, e);
    } else {
      a := Before(c.up) + Line(c.other);
    }
  }

  lemma RenameCase<P>(c: Ctx<P>, t: Tree<P>, z: P, y: P, e: Entry)
    requires MinPath(c, z)
    ensures RbTree(Plug(c, t)) ==> RbTree(Plug(Rename(c, z, y, e), t))
    ensures Deficient(c, t) ==> Deficient(Rename(c, z, y, e), t)
  {
    if RbTree(Plug(c, t)) {
      var h0: nat :| Rb(Plug(c, t), h0);
      var h := UnplugRb(c, t, h0);
      RenameRb(c, z, y, e, h);
      RenameShape(c, z, y, e);
      var h' := PlugRb(Rename(c, z, y, e), t, h);
    }
    if Deficient(c, t) {
      var h: nat :| DeficientAt(c, t, h);
      RenameRb(c, z, y, e, h + 1);
      assert DeficientAt(Rename(c, z, y, e), t, h);
    }
  }

  /** The focus on `z` itself. */
  ghost function ZoomCtx<P>(c: Ctx<P>, z: P): Ctx<P>
    requires MinPath(c, z)
  {
    if c.InRight? then c.up else ZoomCtx(c.up, z)
  }

  ghost function ZoomTree<P>(c: Ctx<P>, t: Tree<P>, z: P): (r: Tree<P>)
    requires MinPath(c, z)
    ensures r.Node?
  {
    if c.InRight? then Lift(c, t) else ZoomTree(c.up, Lift(c, t), z)
  }

  lemma {:induction false} ZoomOut<P>(s: Store<P>, c: Ctx<P>, t: Tree<P>, z: P)
    requires Focused(s, c, t) && MinPath(c, z)
    ensures Focused(s, ZoomCtx(c, z), ZoomTree(c, t, z)) && ZoomTree(c, t, z).p == z
    ensures Ptrs(ZoomTree(c, t, z)) + CtxPtrs(ZoomCtx(c, z)) == Ptrs(t) + CtxPtrs(c)
    decreases c
  {
    hide Focused;
    Up(s, c, t);
    assert Ptrs(Lift(c, t)) + CtxPtrs(c.up) == Ptrs(t) + CtxPtrs(c);
    if c.InLeft? {
      ZoomOut(s, c.up, Lift(c, t), z);
    }
  }

  lemma {:induction false} ZoomIn<P>(s: Store<P>, c: Ctx<P>, t: Tree<P>, z: P)
    requires MinPath(c, z) && Focused(s, ZoomCtx(c, z), ZoomTree(c, t, z))
    ensures Focused(s, c, t)
    decreases c
  {
    hide Focused;
    if c.InLeft? {
      ZoomIn(s, c.up, Lift(c, t), z);
      DownLeft(s, c.up, Lift(c, t));
    } else {
      DownRight(s, c.up, Lift(c, t));
    }
  }

  ghost function Renamed<P>(t: Tree<P>, y: P, e: Entry): Tree<P> {
    if t.Node? then t.(p := y, entry := e) else t
  }

  lemma {:induction false} ZoomRenamed<P>(c: Ctx<P>, t: Tree<P>, z: P, y: P, e: Entry)
    requires MinPath(c, z)
    ensures MinPath(Rename(c, z, y, e), y)
    ensures ZoomCtx(Rename(c, z, y, e), y) == ZoomCtx(c, z)
    ensures ZoomTree(Rename(c, z, y, e), t, y) == Renamed(ZoomTree(c, t, z), y, e)
    decreases c
  {
    if c.InLeft? {
      ZoomRenamed(c.up, Lift(c, t), z, y, e);
    }
  }

  // ----- the same in the store -----

  /** A node outside the tree takes over the links of the focused one, then whatever pointed there. */
  ghost function TakeOver<P>(s: Store<P>, z: P, y: P): (s': Store<P>)
    requires z in s.m && y in s.m && z != y
    requires s.m[z].parent == s.nil || (s.m[z].parent in s.m && s.m[z].parent != y)
    requires s.m[z].left == s.nil || s.m[z].left in s.m
    requires s.m[z].right == s.nil || s.m[z].right in s.m
    ensures s'.m.Keys == s.m.Keys && s'.nil == s.nil
  {
    var r := s.m[z];
    var s1 := Replace(s.(m := s.m[y := r.(entry := s.m[y].entry)]), z, y);
    var s2 := if r.left == s.nil then s1 else SetParent(s1, r.left, y);
    if r.right == s.nil then s2 else SetParent(s2, r.right, y)
  }

  /** What the taking over does to the records around. */
  lemma TakeOverRecords<P>(s: Store<P>, c: Ctx<P>, t: Tree<P>, y: P)
    requires Focused(s, c, t) && t.Node? && y in s.m && y != s.nil && y !in Ptrs(t) && y !in CtxPtrs(c)
    ensures t.p in s.m && t.p != y
    ensures s.m[t.p].parent == s.nil || (s.m[t.p].parent in s.m && s.m[t.p].parent != y)
    ensures s.m[t.p].left == s.nil || s.m[t.p].left in s.m
    ensures s.m[t.p].right == s.nil || s.m[t.p].right in s.m
    ensures var s', l, r := TakeOver(s, t.p, y), RootOf(t.left, s.nil), RootOf(t.right, s.nil);
            && s'.m[y] == s.m[t.p].(entry := s.m[y].entry)
            && (l != s.nil ==> l in s.m && s'.m[l] == s.m[l].(parent := y))
            && (r != s.nil ==> r in s.m && s'.m[r] == s.m[r].(parent := y))
            && (c.InLeft? ==> s'.m[c.p] == s.m[c.p].(left := y))
            && (c.InRight? ==> s'.m[c.p] == s.m[c.p].(right := y))
            && s'.root == (if c.Top? then y else s.root)
            && (forall p ::
                 p in s.m && p != y && (p != l || l == s.nil) && (p != r || r == s.nil) && (c.Top? || p != c.p) ==>
                   s'.m[p] == s.m[p])
  {
    var l, r := t.left, t.right;
    TreeInStore(s.m, t, ParentOf(c, s.nil), s.nil);
    CtxInStore(s.m, c, t.p, s.nil);
    assert IsTree(s.m, l, t.p, s.nil) && IsTree(s.m, r, t.p, s.nil) && t.p in Ptrs(t);
    assert l.Node? ==> l.p in Ptrs(l) && l.p in Ptrs(t);
    assert r.Node? ==> r.p in Ptrs(r) && r.p in Ptrs(t);
    if c.InRight? && c.other.Node? {
      assert c.other.p in Ptrs(c.other) && c.other.p in CtxPtrs(c);
    }
  }

  lemma TakenOver<P>(s: Store<P>, c: Ctx<P>, t: Tree<P>, y: P)
    requires Focused(s, c, t) && t.Node? && y in s.m && y != s.nil && y !in Ptrs(t) && y !in CtxPtrs(c)
    ensures t.p in s.m && t.p != y
    ensures s.m[t.p].parent == s.nil || (s.m[t.p].parent in s.m && s.m[t.p].parent != y)
    ensures s.m[t.p].left == s.nil || s.m[t.p].left in s.m
    ensures s.m[t.p].right == s.nil || s.m[t.p].right in s.m
    ensures Focused(TakeOver(s, t.p, y), c, Renamed(t, y, s.m[y].entry))
  {
    hide TakeOver;
    TakeOverRecords(s, c, t, y);
    var l, r := t.left, t.right;
    TreeInStore(s.m, t, ParentOf(c, s.nil), s.nil);
    CtxInStore(s.m, c, t.p, s.nil);
    assert l.Node? ==> l.p in Ptrs(l);
    assert r.Node? ==> r.p in Ptrs(r);
    var s', t' := TakeOver(s, t.p, y), t.(p := y, entry := s.m[y].entry);
    TreeReparent(s.m, s'.m, l, t.p, y, s.nil);
    TreeReparent(s.m, s'.m, r, t.p, y, s.nil);
    CtxRehole(s.m, s'.m, c, t.p, y, s.nil);
    assert Ptrs(t') == Ptrs(l) + {y} + Ptrs(r);
  }

  /** The record that stands for the null pointer may have any parent. */
  lemma NilScratch<P>(s: Store<P>, c: Ctx<P>, t: Tree<P>, q: P)
    requires Focused(s, c, t)
    ensures Focused(SetParent(s, s.nil, q), c, t)
  {
    TreeInStore(s.m, t, ParentOf(c, s.nil), s.nil);
    CtxInStore(s.m, c, RootOf(t, s.nil), s.nil);
    var s' := SetParent(s, s.nil, q);
    TreeFrame(s.m, s'.m, t, ParentOf(c, s.nil), s.nil);
    CtxFrame(s.m, s'.m, c, RootOf(t, s.nil), s.nil);
  }
}
