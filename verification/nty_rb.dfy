/** The red-black tree without sentinel: null leaves, elements that carry their own links, and a removal
    that moves the successor's node into the removed node's place. */
module NtyRb {
  import Dict
  import opened RbStore
  import opened RbColors
  import opened RbDelete
  import opened RbLine
  import Seqs

  class NtyNode {
    const key: int
    var color: Color
    var left: NtyNode?
    var right: NtyNode?
    var parent: NtyNode?

    constructor (key: int)
      ensures this.key == key
    {
      this.key := key;
      color := Black;
      left, right, parent := null, null, null;
    }

    ghost function Fields(): Rec<NtyNode?>
      reads this
    {
      Rec(color, left, right, parent, NOTHING)
    }
  }

  /** The elements are the nodes themselves; the store's entries are not used. */
  const NOTHING := Dict.Entry("", "")

  type Path = Ctx<NtyNode?>
  type Shape = Tree<NtyNode?>

  /** The null pointer reads as a black node in the store; nothing is ever written there. */
  ghost function NullRec(): Rec<NtyNode?> { Rec(Black, null, null, null, NOTHING) }

  class NtyRbHead {
    var root: NtyNode?
    /** The nodes linked in, and the tree that the pointers form. */
    ghost var nodes: set<NtyNode>
    ghost var tree: Shape

    /** The heap as a store. */
    ghost function St(): Store<NtyNode?>
      reads this`root, this`nodes, nodes
    {
      Store((map n: NtyNode? | n in nodes :: n.Fields())[null := NullRec()], root, null)
    }

    // ----- field assignments -----

    method PutColor(n: NtyNode, color: Color)
      requires n in nodes
      modifies n`color
      ensures St() == SetColor(old(St()), n, color)
    {
      n.color := color;
    }

    method PutLeft(n: NtyNode, q: NtyNode?)
      requires n in nodes
      modifies n`left
      ensures St() == SetLeft(old(St()), n, q) && n.left == q
    {
      n.left := q;
    }

    method PutRight(n: NtyNode, q: NtyNode?)
      requires n in nodes
      modifies n`right
      ensures St() == SetRight(old(St()), n, q) && n.right == q
    {
      n.right := q;
    }

    method PutParent(n: NtyNode, q: NtyNode?)
      requires n in nodes
      modifies n`parent
      ensures St() == SetParent(old(St()), n, q) && n.parent == q
    {
      n.parent := q;
    }

    // ----- rotations -----

    /** Whoever pointed at `x` from above points at `y` instead. */
    method ReplaceChild(x: NtyNode, y: NtyNode?)
      requires x in nodes && (x.parent != null ==> x.parent in nodes)
      modifies this`root, nodes
      ensures St() == Replace(old(St()), x, y)
    {
      if x.parent != null {
        if x == x.parent.left {
          PutLeft(x.parent, y);
        } else {
          PutRight(x.parent, y);
        }
      } else {
        root := y;
      }
    }

    /** `RB_ROTATE_LEFT`. */
    method LeftRotate(elm: NtyNode)
      requires elm in nodes && elm.right != null && CanRotateLeft(St(), elm)
      modifies this`root, nodes
      ensures St() == RotateLeft(old(St()), elm)
    {
      var tmp := elm.right;
      PutRight(elm, tmp.left);
      if elm.right != null {
        PutParent(tmp.left, elm);
      }
      PutParent(tmp, elm.parent);
      ReplaceChild(elm, tmp);
      PutLeft(tmp, elm);
      PutParent(elm, tmp);
    }

    /** `RB_ROTATE_RIGHT`. */
    method RightRotate(elm: NtyNode)
      requires elm in nodes && elm.left != null && CanRotateRight(St(), elm)
      modifies this`root, nodes
      ensures St() == RotateRight(old(St()), elm)
    {
      var tmp := elm.left;
      PutLeft(elm, tmp.right);
      if elm.left != null {
        PutParent(tmp.right, elm);
      }
      PutParent(tmp, elm.parent);
      ReplaceChild(elm, tmp);
      PutRight(tmp, elm);
      PutParent(elm, tmp);
    }

    // ----- the same, seen through a focus -----

    method Paint(n: NtyNode, color: Color, ghost c: Path, ghost t: Shape)
      requires Focused(St(), c, t) && t.Node? && t.p == n
      modifies n`color
      ensures Focused(St(), c, t.(color := color)) && n in nodes && St() == SetColor(old(St()), n, color)
    {
      Coloured(St(), c, t, color);
      PutColor(n, color);
    }

    method TurnLeft(x: NtyNode, ghost c: Path, ghost t: Shape)
      requires Focused(St(), c, t) && t.Node? && t.right.Node? && t.p == x
      modifies this`root, nodes
      ensures Focused(St(), c, Lefted(t))
    {
      FocusHeap(c, t);
      RotatedLeft(St(), c, t);
      LeftRotate(x);
    }

    method TurnRight(y: NtyNode, ghost c: Path, ghost t: Shape)
      requires Focused(St(), c, t) && t.Node? && t.left.Node? && t.p == y
      modifies this`root, nodes
      ensures Focused(St(), c, Righted(t))
    {
      FocusHeap(c, t);
      RotatedRight(St(), c, t);
      RightRotate(y);
    }

    // ----- insertion repair -----

    /** The pointers and colours around a red node below a red one. */
    lemma Relatives(z: NtyNode, c: Path, t: Shape)
      requires Focused(St(), c, t) && t.Node? && t.p == z && Reddened(c, t) && RedAbove(c)
      ensures z in nodes && z.parent == c.p && c.p in nodes && c.p != null
      ensures !c.up.Top? && c.p.parent == c.up.p && c.up.p in nodes && c.up.p != null
      ensures c.up.InLeft? ==> c.up.p.left == c.p && c.up.p.right == RootOf(c.up.other, null)
      ensures c.up.InRight? ==> c.up.p.left == RootOf(c.up.other, null) != c.p && c.up.p.right == c.p
      ensures c.InLeft? ==> c.p.left == z && c.p.right != z
      ensures c.InRight? ==> c.p.right == z && c.p.left != z
      ensures c.up.other.Node? ==>
                c.up.other.p in nodes && c.up.other.p != null && c.up.other.p.color == c.up.other.color
    {
      var u := c.up;
      assert IsCtx(St().m, u, c.p, null) && IsTree(St().m, u.other, u.p, null) && DistinctCtx(u);
      assert u.other.Node? ==> u.other.p in Ptrs(u.other);
      assert c.other.Node? ==> c.other.p in Ptrs(c.other) && c.other.p in CtxPtrs(c);
      assert z in Ptrs(t) && c.p in CtxPtrs(c) && u.p in CtxPtrs(u);
      CtxInStore(St().m, c, z, null);
    }

    // ----- insertion -----

    ghost predicate Going(elm: NtyNode, c: Path, t: Shape) {
      t.Node? && t.p == elm && Reddened(c, t)
    }

    ghost predicate Done(elm: NtyNode, c: Path, t: Shape)
      reads this`nodes, nodes
    {
      t.Node? && Fitted(c, t) && elm in nodes && elm.parent != null && elm.parent in nodes && elm.parent.color == Black
    }

    /** Red uncle: recolour, and go on at the grandparent. */
    method Recolour(elm: NtyNode, parent: NtyNode, gparent: NtyNode, tmp: NtyNode, ghost c: Path, ghost t: Shape)
      requires Focused(St(), c, t) && t.Node? && t.p == elm && Reddened(c, t) && RedAbove(c)
      requires c.up.other.Node? && tmp == c.up.other.p && parent == c.p && !c.up.Top? && gparent == c.up.p
      modifies nodes
      ensures Focused(St(), c.up.up, Recoloured(c, t))
    {
      hide Focused, Reddened;
      Relatives(elm, c, t);
      ghost var u, p1 := c.up, Lift(c, t);
      Up(St(), c, t);
      ToSibling(St(), u, p1);
      Paint(tmp, Black, Aside(u, p1), u.other);
      FromSibling(St(), u, p1, u.other.(color := Black));
      ghost var u2 := WithOther(u, u.other.(color := Black));
      Paint(parent, Black, u2, p1);
      Up(St(), u2, p1.(color := Black));
      Paint(gparent, Red, u.up, Lift(u2, p1.(color := Black)));
    }

    /** `RB_SET_BLACKRED` before the last rotation. */
    method SetBlackRed(parent: NtyNode, gparent: NtyNode, ghost c: Path, ghost t: Shape) returns (ghost g: Shape)
      requires Focused(St(), c, t) && RedAbove(c) && !c.up.Top? && parent == c.p && gparent == c.up.p
      requires parent in nodes && gparent in nodes
      modifies nodes
      ensures g == Swapped(c, t) && Focused(St(), c.up.up, g)
    {
      hide Focused;
      Up(St(), c, t);
      Paint(parent, Black, c.up, Lift(c, t));
      Up(St(), c.up, Lift(c, t).(color := Black));
      Paint(gparent, Red, c.up.up, Lift(c.up, Lift(c, t).(color := Black)));
      g := Swapped(c, t);
    }

    /** An inner grandchild: the rotation at the parent, which becomes the node to go on with. */
    method InnerLeft(parent: NtyNode, ghost c: Path, ghost t: Shape) returns (ghost c': Path, ghost t': Shape)
      requires Focused(St(), c, t) && t.Node? && Reddened(c, t) && RedAbove(c) && c.InRight? && parent == c.p
      modifies this`root, nodes
      ensures Focused(St(), c', t') && Line(Plug(c', t')) == Line(Plug(c, t))
      ensures c'.InLeft? && c'.up == c.up && RedAbove(c') && t'.Node? && t'.p == parent && Reddened(c', t')
              && c'.p == t.p
    {
      hide Focused;
      var p := Lift(c, t);
      Up(St(), c, t);
      InnerOk(c, t);
      InnerLine(c, t);
      TurnLeft(parent, c.up, p);
      DownLeft(St(), c.up, Lefted(p));
      c', t' := InLeft(c.up, t.p, Red, t.entry, t.right), Lefted(p).left;
    }

    method InnerRight(parent: NtyNode, ghost c: Path, ghost t: Shape) returns (ghost c': Path, ghost t': Shape)
      requires Focused(St(), c, t) && t.Node? && Reddened(c, t) && RedAbove(c) && c.InLeft? && parent == c.p
      modifies this`root, nodes
      ensures Focused(St(), c', t') && Line(Plug(c', t')) == Line(Plug(c, t))
      ensures c'.InRight? && c'.up == c.up && RedAbove(c') && t'.Node? && t'.p == parent && Reddened(c', t')
              && c'.p == t.p
    {
      hide Focused;
      var p := Lift(c, t);
      Up(St(), c, t);
      InnerOk(c, t);
      InnerLine(c, t);
      TurnRight(parent, c.up, p);
      DownRight(St(), c.up, Righted(p));
      c', t' := InRight(c.up, t.p, Red, t.entry, t.left), Righted(p).right;
    }

    /** After the last rotation the parent is the black root of the repaired subtree. */
    lemma OuterHeap(elm: NtyNode, c: Path, t: Shape)
      requires Focused(St(), c, t) && t.Node? && t.color == Black
      requires (t.left.Node? && t.left.p == elm) || (t.right.Node? && t.right.p == elm)
      ensures elm in nodes && elm.parent == t.p && t.p != null && t.p in nodes && t.p.color == Black
    {
      assert IsTree(St().m, t.left, t.p, null) && IsTree(St().m, t.right, t.p, null);
    }

    /** One round of the repair when the parent is a left child. */
    method FixLeft(elm0: NtyNode, parent0: NtyNode, gparent: NtyNode, ghost c: Path, ghost t: Shape)
      returns (elm: NtyNode, ghost c': Path, ghost t': Shape)
      requires Focused(St(), c, t) && Going(elm0, c, t) && RedAbove(c) && c.up.InLeft?
      requires parent0 == c.p && gparent == c.up.p
      modifies this`root, nodes
      ensures Focused(St(), c', t') && Line(Plug(c', t')) == Line(Plug(c, t)) && c' == c.up.up
      ensures Going(elm, c', t') || Done(elm, c', t')
    {
      Relatives(elm0, c, t);
      elm, c' := elm0, c.up.up;
      var parent := parent0;
      var tmp := gparent.right;
      if tmp != null && tmp.color == Red {
        Recolour(elm, parent, gparent, tmp, c, t);
        RecolourOk(c, t);
        RecolourLine(c, t);
        elm := gparent;
        t' := Recoloured(c, t);
      } else {
        ghost var c1, t1 := c, t;
        if parent.right == elm {
          c1, t1 := InnerLeft(parent, c, t);
          parent, elm := elm, parent;
        }
        ghost var g := SetBlackRed(parent, gparent, c1, t1);
        OuterEntries(c1, t1);
        TurnRight(gparent, c', g);
        t' := Outer(c1, t1);
        OuterOk(c1, t1);
        OuterLine(c1, t1);
        OuterHeap(elm, c', t');
      }
    }

    /** One round of the repair when the parent is a right child. */
    method FixRight(elm0: NtyNode, parent0: NtyNode, gparent: NtyNode, ghost c: Path, ghost t: Shape)
      returns (elm: NtyNode, ghost c': Path, ghost t': Shape)
      requires Focused(St(), c, t) && Going(elm0, c, t) && RedAbove(c) && c.up.InRight?
      requires parent0 == c.p && gparent == c.up.p
      modifies this`root, nodes
      ensures Focused(St(), c', t') && Line(Plug(c', t')) == Line(Plug(c, t)) && c' == c.up.up
      ensures Going(elm, c', t') || Done(elm, c', t')
    {
      Relatives(elm0, c, t);
      elm, c' := elm0, c.up.up;
      var parent := parent0;
      var tmp := gparent.left;
      if tmp != null && tmp.color == Red {
        Recolour(elm, parent, gparent, tmp, c, t);
        RecolourOk(c, t);
        RecolourLine(c, t);
        elm := gparent;
        t' := Recoloured(c, t);
      } else {
        ghost var c1, t1 := c, t;
        if parent.left == elm {
          c1, t1 := InnerRight(parent, c, t);
          parent, elm := elm, parent;
        }
        ghost var g := SetBlackRed(parent, gparent, c1, t1);
        OuterEntries(c1, t1);
        TurnLeft(gparent, c', g);
        t' := Outer(c1, t1);
        OuterOk(c1, t1);
        OuterLine(c1, t1);
        OuterHeap(elm, c', t');
      }
    }

    lemma ParentColor(elm: NtyNode, c: Path, t: Shape)
      requires Focused(St(), c, t) && t.Node? && t.p == elm
      ensures elm in nodes && elm.parent == ParentOf(c, null) && (elm.parent == null <==> c.Top?)
      ensures !c.Top? ==> elm.parent in nodes && (elm.parent.color == Red <==> RedAbove(c))
    {}

    /** `RB_INSERT_COLOR`. */
    method InsertColor(elm0: NtyNode, ghost c0: Path, ghost t0: Shape) returns (ghost r: Shape)
      requires Focused(St(), c0, t0) && Going(elm0, c0, t0)
      modifies this`root, nodes
      ensures Focused(St(), Top, r) && RbTree(r) && Line(r) == Line(Plug(c0, t0))
    {
      hide Focused, Reddened, Fitted, RbTree, Line, Plug;
      var elm := elm0;
      ghost var c, t := c0, t0;
      ghost var line := Line(Plug(c, t));
      ParentColor(elm, c, t);
      while elm.parent != null && elm.parent.color == Red
        invariant Focused(St(), c, t) && Line(Plug(c, t)) == line
        invariant Going(elm, c, t) || Done(elm, c, t)
        decreases c
      {
        ParentColor(elm, c, t);
        Relatives(elm, c, t);
        var parent := elm.parent;
        var gparent := parent.parent;
        if parent == gparent.left {
          elm, c, t := FixLeft(elm, parent, gparent, c, t);
        } else {
          elm, c, t := FixRight(elm, parent, gparent, c, t);
        }
      }
      if Going(elm, c, t) {
        ParentColor(elm, c, t);
      }
      r := BlackenRoot(elm, c, t);
    }

    /** The last assignment of `RB_INSERT_COLOR`. */
    method BlackenRoot(elm: NtyNode, ghost c: Path, ghost t: Shape) returns (ghost r: Shape)
      requires Focused(St(), c, t) && (Going(elm, c, t) || Done(elm, c, t))
      requires elm in nodes && !(elm.parent != null && elm.parent in nodes && elm.parent.color == Red)
      modifies nodes
      ensures Focused(St(), Top, r) && RbTree(r) && Line(r) == Line(Plug(c, t))
    {
      hide Fitted, Reddened;
      if Going(elm, c, t) {
        ParentColor(elm, c, t);
      }
      FittedTree(c, t);
      BlackenLine(Top, Plug(c, t));
      Whole(St(), c, t);
      PlugNode(c, t);
      FocusHeap(Top, Plug(c, t));
      Paint(root, Black, Top, Plug(c, t));
      r := Blacken(Plug(c, t));
    }

    lemma FocusHeap(c: Path, t: Shape)
      requires Focused(St(), c, t)
      ensures t.Leaf? || (t.p != null && t.p in nodes && t.p.color == t.color && t.entry == NOTHING
                  && t.p.left == RootOf(t.left, null) && t.p.right == RootOf(t.right, null)
                  && t.p.parent == ParentOf(c, null))
      ensures t.Node? ==> (t.p.left == null <==> t.left.Leaf?) && (t.p.right == null <==> t.right.Leaf?)
      ensures !c.Top? ==> c.p != null && c.p in nodes && c.p.color == c.color && c.entry == NOTHING
      ensures c.Top? ==> root == RootOf(t, null)
    {
      if t.Node? {
        assert IsTree(St().m, t.left, t.p, null) && IsTree(St().m, t.right, t.p, null);
      }
    }

    // ----- removal repair -----

    lemma RootIsTop(c: Path, t: Shape)
      requires Focused(St(), c, t)
      ensures root == RootOf(t, null) <==> c.Top?
    {
      if !c.Top? {
        TopInCtx(c, RootOf(t, null));
        CtxInStore(St().m, c, RootOf(t, null), null);
        if t.Node? {
          assert t.p in Ptrs(t);
        }
      }
    }

    lemma {:induction false} TopInCtx(c: Path, hole: NtyNode?)
      requires !c.Top?
      ensures TopOf(c, hole) in CtxPtrs(c)
    {
      if !c.up.Top? {
        TopInCtx(c.up, c.p);
      }
    }

    method PaintSibling(w: NtyNode, color: Color, ghost c: Path, ghost t: Shape)
      requires Focused(St(), c, t) && !c.Top? && c.other.Node? && w == c.other.p
      modifies w`color
      ensures Focused(St(), WithOther(c, c.other.(color := color)), t)
    {
      ToSibling(St(), c, t);
      Paint(w, color, Aside(c, t), c.other);
      FromSibling(St(), c, t, c.other.(color := color));
    }

    method PaintParent(p: NtyNode, color: Color, ghost c: Path, ghost t: Shape)
      requires Focused(St(), c, t) && !c.Top? && p == c.p
      modifies p`color
      ensures Focused(St(), WithColor(c, color), t)
    {
      Up(St(), c, t);
      Paint(p, color, c.up, Lift(c, t));
      if c.InLeft? {
        DownLeft(St(), c.up, Lift(c, t).(color := color));
      } else {
        DownRight(St(), c.up, Lift(c, t).(color := color));
      }
    }

    /** A child of the sibling turns black. */
    method PaintNephew(n: NtyNode, left: bool, ghost c: Path, ghost t: Shape)
      requires Focused(St(), c, t) && !c.Top? && c.other.Node?
      requires if left then c.other.left.Node? && n == c.other.left.p else c.other.right.Node? && n == c.other.right.p
      modifies n`color
      ensures left ==> Focused(St(), WithOther(c, c.other.(left := c.other.left.(color := Black))), t)
      ensures !left ==> Focused(St(), WithOther(c, c.other.(right := c.other.right.(color := Black))), t)
    {
      ghost var w := c.other;
      ToSibling(St(), c, t);
      if left {
        DownLeft(St(), Aside(c, t), w);
        ghost var side := InLeft(Aside(c, t), w.p, w.color, w.entry, w.right);
        Paint(n, Black, side, w.left);
        Up(St(), side, w.left.(color := Black));
        FromSibling(St(), c, t, w.(left := w.left.(color := Black)));
      } else {
        DownRight(St(), Aside(c, t), w);
        ghost var side := InRight(Aside(c, t), w.p, w.color, w.entry, w.left);
        Paint(n, Black, side, w.right);
        Up(St(), side, w.right.(color := Black));
        FromSibling(St(), c, t, w.(right := w.right.(color := Black)));
      }
    }

    /** A black node is missing on every path through the hole. */
    ghost predicate Owing(elm: NtyNode?, parent: NtyNode?, c: Path, t: Shape)
      reads this`root, this`nodes, nodes
    {
      Focused(St(), c, t) && elm == RootOf(t, null) && parent == ParentOf(c, null) && Deficient(c, t)
    }

    /** What the repair reads around the hole, which may hold the null pointer. */
    lemma AroundHole(elm: NtyNode?, parent: NtyNode?, c: Path, t: Shape)
      requires Focused(St(), c, t) && elm == RootOf(t, null) && parent == ParentOf(c, null)
      ensures elm == null <==> t.Leaf?
      ensures elm != null ==> elm in nodes && elm.color == t.color && elm.parent == parent
      ensures elm == root <==> c.Top?
      ensures !c.Top? ==> parent != null && parent in nodes && parent == c.p && parent.color == c.color
      ensures c.InLeft? ==> parent.left == elm && parent.right == RootOf(c.other, null)
      ensures c.InRight? ==>
                parent.right == elm && parent.left == RootOf(c.other, null) && (c.other.Node? ==> parent.left != elm)
      ensures !c.Top? ==> parent.parent == ParentOf(c.up, null)
      ensures !c.Top? && c.other.Node? ==>
        var w := c.other.p;
        && w != null && w in nodes && w.color == c.other.color
        && w.left == RootOf(c.other.left, null) && w.right == RootOf(c.other.right, null)
        && (w.left != null ==> w.left in nodes && w.left.color == c.other.left.color)
        && (w.right != null ==> w.right in nodes && w.right.color == c.other.right.color)
        && (w.left == null <==> c.other.left.Leaf?) && (w.right == null <==> c.other.right.Leaf?)
    {
      RootIsTop(c, t);
      if !c.Top? && c.other.Node? {
        assert IsTree(St().m, c.other, c.p, null);
        assert IsTree(St().m, c.other.left, c.other.p, null) && IsTree(St().m, c.other.right, c.other.p, null);
        assert c.other.p in Ptrs(c.other) && c.other.p in CtxPtrs(c);
      }
    }

    /** A red sibling, of a left child. */
    method RedRight(parent: NtyNode, tmp: NtyNode, ghost elm: NtyNode?, ghost c: Path, ghost t: Shape)
      requires Owing(elm, parent, c, t) && BlackRoot(t) && c.InLeft? && c.other.Node? && c.other.color == Red
               && tmp == c.other.p
      modifies this`root, nodes
      ensures Owing(elm, parent, RedSibling(c), t) && Line(Plug(RedSibling(c), t)) == Line(Plug(c, t))
    {
      hide Focused, Deficient;
      AroundHole(elm, parent, c, t);
      var sh := SiblingExists(c, t);
      RedSiblingOk(c, t);
      RedSiblingLine(c, t);
      PaintSibling(tmp, Black, c, t);
      ghost var c1 := WithOther(c, c.other.(color := Black));
      PaintParent(parent, Red, c1, t);
      ghost var c2 := WithColor(c1, Red);
      Up(St(), c2, t);
      TurnLeft(parent, c.up, Lift(c2, t));
      DownLeft(St(), c.up, Lefted(Lift(c2, t)));
      DownLeft(St(), RedSibling(c).up, Lefted(Lift(c2, t)).left);
    }

    /** A black sibling whose red child is on the near side, of a left child. */
    method ToFarRight(parent: NtyNode, tmp: NtyNode, ghost elm: NtyNode?, ghost c: Path, ghost t: Shape)
      requires Owing(elm, parent, c, t) && BlackRoot(t) && c.InLeft? && c.other.Node? && c.other.color == Black
               && tmp == c.other.p
      requires BlackRoot(c.other.right) && !BlackRoot(c.other.left)
      modifies this`root, nodes
      ensures Owing(elm, parent, FarSide(c), t) && Line(Plug(FarSide(c), t)) == Line(Plug(c, t))
    {
      hide Focused, Deficient;
      AroundHole(elm, parent, c, t);
      FarSideOk(c, t);
      FarSideLine(c, t);
      var inner := tmp.left;
      if inner != null {
        PaintNephew(inner, true, c, t);
      }
      ghost var w1 := c.other.(left := c.other.left.(color := Black));
      PaintSibling(tmp, Red, WithOther(c, w1), t);
      ghost var w2 := w1.(color := Red);
      ToSibling(St(), WithOther(c, w2), t);
      TurnRight(tmp, Aside(c, t), w2);
      FromSibling(St(), c, t, Righted(w2));
    }

    /** A black sibling whose far child is red, of a left child. */
    method PayFromRight(parent: NtyNode, tmp: NtyNode, ghost elm: NtyNode?, ghost c: Path, ghost t: Shape)
      requires Owing(elm, parent, c, t) && BlackRoot(t) && c.InLeft? && c.other.Node? && c.other.color == Black
               && tmp == c.other.p
      requires !BlackRoot(c.other.right)
      modifies this`root, nodes
      ensures Focused(St(), c.up, Paid(c, t)) && Fitted(c.up, Paid(c, t))
              && Line(Plug(c.up, Paid(c, t))) == Line(Plug(c, t))
    {
      hide Focused, Deficient, Fitted;
      AroundHole(elm, parent, c, t);
      PaidOk(c, t);
      PaidLine(c, t);
      PaintSibling(tmp, parent.color, c, t);
      ghost var c1 := WithOther(c, c.other.(color := c.color));
      PaintParent(parent, Black, c1, t);
      ghost var c2 := WithColor(c1, Black);
      if tmp.right != null {
        PaintNephew(tmp.right, false, c2, t);
      }
      ghost var c3 := WithOther(c2, c2.other.(right := c2.other.right.(color := Black)));
      Up(St(), c3, t);
      TurnLeft(parent, c.up, Lift(c3, t));
    }

    /** A red sibling, of a right child. */
    method RedLeft(parent: NtyNode, tmp: NtyNode, ghost elm: NtyNode?, ghost c: Path, ghost t: Shape)
      requires Owing(elm, parent, c, t) && BlackRoot(t) && c.InRight? && c.other.Node? && c.other.color == Red
               && tmp == c.other.p
      modifies this`root, nodes
      ensures Owing(elm, parent, RedSibling(c), t) && Line(Plug(RedSibling(c), t)) == Line(Plug(c, t))
    {
      hide Focused, Deficient;
      AroundHole(elm, parent, c, t);
      var sh := SiblingExists(c, t);
      RedSiblingOk(c, t);
      RedSiblingLine(c, t);
      PaintSibling(tmp, Black, c, t);
      ghost var c1 := WithOther(c, c.other.(color := Black));
      PaintParent(parent, Red, c1, t);
      ghost var c2 := WithColor(c1, Red);
      Up(St(), c2, t);
      TurnRight(parent, c.up, Lift(c2, t));
      DownRight(St(), c.up, Righted(Lift(c2, t)));
      DownRight(St(), RedSibling(c).up, Righted(Lift(c2, t)).right);
    }

    /** A black sibling whose red child is on the near side, of a right child. */
    method ToFarLeft(parent: NtyNode, tmp: NtyNode, ghost elm: NtyNode?, ghost c: Path, ghost t: Shape)
      requires Owing(elm, parent, c, t) && BlackRoot(t) && c.InRight? && c.other.Node? && c.other.color == Black
               && tmp == c.other.p
      requires BlackRoot(c.other.left) && !BlackRoot(c.other.right)
      modifies this`root, nodes
      ensures Owing(elm, parent, FarSide(c), t) && Line(Plug(FarSide(c), t)) == Line(Plug(c, t))
    {
      hide Focused, Deficient;
      AroundHole(elm, parent, c, t);
      FarSideOk(c, t);
      FarSideLine(c, t);
      var inner := tmp.right;
      if inner != null {
        PaintNephew(inner, false, c, t);
      }
      ghost var w1 := c.other.(right := c.other.right.(color := Black));
      PaintSibling(tmp, Red, WithOther(c, w1), t);
      ghost var w2 := w1.(color := Red);
      ToSibling(St(), WithOther(c, w2), t);
      TurnLeft(tmp, Aside(c, t), w2);
      FromSibling(St(), c, t, Lefted(w2));
    }

    /** A black sibling whose far child is red, of a right child. */
    method PayFromLeft(parent: NtyNode, tmp: NtyNode, ghost elm: NtyNode?, ghost c: Path, ghost t: Shape)
      requires Owing(elm, parent, c, t) && BlackRoot(t) && c.InRight? && c.other.Node? && c.other.color == Black
               && tmp == c.other.p
      requires !BlackRoot(c.other.left)
      modifies this`root, nodes
      ensures Focused(St(), c.up, Paid(c, t)) && Fitted(c.up, Paid(c, t))
              && Line(Plug(c.up, Paid(c, t))) == Line(Plug(c, t))
    {
      hide Focused, Deficient, Fitted;
      AroundHole(elm, parent, c, t);
      PaidOk(c, t);
      PaidLine(c, t);
      PaintSibling(tmp, parent.color, c, t);
      ghost var c1 := WithOther(c, c.other.(color := c.color));
      PaintParent(parent, Black, c1, t);
      ghost var c2 := WithColor(c1, Black);
      if tmp.left != null {
        PaintNephew(tmp.left, true, c2, t);
      }
      ghost var c3 := WithOther(c2, c2.other.(left := c2.other.left.(color := Black)));
      Up(St(), c3, t);
      TurnRight(parent, c.up, Lift(c3, t));
    }

    /** A black sibling with black children, on either side. */
    method MoveUp(parent: NtyNode, tmp: NtyNode, ghost elm: NtyNode?, ghost c: Path, ghost t: Shape)
      requires Owing(elm, parent, c, t) && BlackRoot(t) && !c.Top? && c.other.Node? && c.other.color == Black
               && tmp == c.other.p
      requires BlackRoot(c.other.left) && BlackRoot(c.other.right)
      modifies nodes
      ensures Owing(parent, parent.parent, c.up, MovedUp(c, t)) && Line(Plug(c.up, MovedUp(c, t))) == Line(Plug(c, t))
    {
      hide Focused, Deficient;
      AroundHole(elm, parent, c, t);
      MovedUpOk(c, t);
      MovedUpLine(c, t);
      PaintSibling(tmp, Red, c, t);
      Up(St(), WithOther(c, c.other.(color := Red)), t);
    }

    /** The repair has been paid for; what is left is to blacken the root. */
    ghost predicate Clear(elm: NtyNode?, c: Path, t: Shape)
      reads this`root, this`nodes, nodes
    {
      elm == root && Focused(St(), c, t) && Fitted(c, t) && t.Node?
    }

    /** One round of the repair at a left child; `over` is the `break`. */
    method RepairLeft(elm0: NtyNode?, parent0: NtyNode, ghost c: Path, ghost t: Shape)
      returns (elm: NtyNode?, parent: NtyNode?, over: bool, ghost c': Path, ghost t': Shape)
      requires Owing(elm0, parent0, c, t) && BlackRoot(t) && c.InLeft?
      modifies this`root, nodes
      ensures Line(Plug(c', t')) == Line(Plug(c, t))
      ensures if over then Clear(elm, c', t')
              else Owing(elm, parent, c', t') && (Depth(c') < Depth(c) || !BlackRoot(t'))
    {
      hide Focused, Deficient, Fitted, Line, Plug;
      AroundHole(elm0, parent0, c, t);
      ghost var sh := SiblingExists(c, t);
      c', t' := c, t;
      var tmp := parent0.right;
      if tmp.color == Red {
        RedSiblingOk(c, t);
        RedRight(parent0, tmp, elm0, c, t);
        c' := RedSibling(c);
        AroundHole(elm0, parent0, c', t);
        tmp := parent0.right;
      }
      DepthUp(c');
      if (tmp.left == null || tmp.left.color == Black) && (tmp.right == null || tmp.right.color == Black) {
        MoveUp(parent0, tmp, elm0, c', t);
        elm, over := parent0, false;
        parent := elm.parent;
        DepthUp(c);
        c', t' := c'.up, MovedUp(c', t);
      } else {
        if tmp.right == null || tmp.right.color == Black {
          FarSideOk(c', t);
          ToFarRight(parent0, tmp, elm0, c', t);
          c' := FarSide(c');
          AroundHole(elm0, parent0, c', t);
          tmp := parent0.right;
        }
        PayFromRight(parent0, tmp, elm0, c', t);
        c', t' := c'.up, Paid(c', t);
        elm, parent, over := root, parent0, true;
        RootIsSome(c', t');
      }
    }

    /** One round of the repair at a right child; `over` is the `break`. */
    method RepairRight(elm0: NtyNode?, parent0: NtyNode, ghost c: Path, ghost t: Shape)
      returns (elm: NtyNode?, parent: NtyNode?, over: bool, ghost c': Path, ghost t': Shape)
      requires Owing(elm0, parent0, c, t) && BlackRoot(t) && c.InRight?
      modifies this`root, nodes
      ensures Line(Plug(c', t')) == Line(Plug(c, t))
      ensures if over then Clear(elm, c', t')
              else Owing(elm, parent, c', t') && (Depth(c') < Depth(c) || !BlackRoot(t'))
    {
      hide Focused, Deficient, Fitted, Line, Plug;
      AroundHole(elm0, parent0, c, t);
      ghost var sh := SiblingExists(c, t);
      c', t' := c, t;
      var tmp := parent0.left;
      if tmp.color == Red {
        RedSiblingOk(c, t);
        RedLeft(parent0, tmp, elm0, c, t);
        c' := RedSibling(c);
        AroundHole(elm0, parent0, c', t);
        tmp := parent0.left;
      }
      DepthUp(c');
      if (tmp.left == null || tmp.left.color == Black) && (tmp.right == null || tmp.right.color == Black) {
        MoveUp(parent0, tmp, elm0, c', t);
        elm, over := parent0, false;
        parent := elm.parent;
        DepthUp(c);
        c', t' := c'.up, MovedUp(c', t);
      } else {
        if tmp.left == null || tmp.left.color == Black {
          FarSideOk(c', t);
          ToFarLeft(parent0, tmp, elm0, c', t);
          c' := FarSide(c');
          AroundHole(elm0, parent0, c', t);
          tmp := parent0.left;
        }
        PayFromLeft(parent0, tmp, elm0, c', t);
        c', t' := c'.up, Paid(c', t);
        elm, parent, over := root, parent0, true;
        RootIsSome(c', t');
      }
    }

    lemma RootIsSome(c: Path, t: Shape)
      requires Focused(St(), c, t) && t.Node?
      ensures root != null && root in nodes
    {
      Whole(St(), c, t);
      PlugNode(c, t);
      FocusHeap(Top, Plug(c, t));
    }

    /** `RB_REMOVE_COLOR`. */
    method RemoveColor(parent0: NtyNode?, elm0: NtyNode?, ghost c0: Path, ghost t0: Shape) returns (ghost r: Shape)
      requires Owing(elm0, parent0, c0, t0)
      modifies this`root, nodes
      ensures Focused(St(), Top, r) && RbTree(r) && Line(r) == Line(Plug(c0, t0))
    {
      hide Focused, Deficient, Fitted, RbTree, Line, Plug;
      var elm, parent := elm0, parent0;
      var over := false;
      ghost var c, t := c0, t0;
      ghost var line := Line(Plug(c, t));
      AroundHole(elm, parent, c, t);
      while !over && (elm == null || elm.color == Black) && elm != root
        invariant if over then Clear(elm, c, t) else Owing(elm, parent, c, t)
        invariant Line(Plug(c, t)) == line
        decreases if over || elm == root || !BlackRoot(t) then 0 else 1 + Depth(c)
      {
        AroundHole(elm, parent, c, t);
        ghost var sh := SiblingExists(c, t);
        if parent.left == elm {
          elm, parent, over, c, t := RepairLeft(elm, parent, c, t);
        } else {
          elm, parent, over, c, t := RepairRight(elm, parent, c, t);
        }
      }
      if !over {
        AroundHole(elm, parent, c, t);
      }
      r := SettleUp(elm, parent, over, c, t);
    }

    /** The last assignment of `RB_REMOVE_COLOR`. */
    method SettleUp(elm: NtyNode?, parent: NtyNode?, over: bool, ghost c: Path, ghost t: Shape) returns (ghost r: Shape)
      requires if over then Clear(elm, c, t) else Owing(elm, parent, c, t) && (c.Top? || !BlackRoot(t))
      modifies nodes
      ensures Focused(St(), Top, r) && RbTree(r) && Line(r) == Line(Plug(c, t))
    {
      if over {
        FittedTree(c, t);
        Whole(St(), c, t);
        PlugNode(c, t);
        FocusHeap(Top, Plug(c, t));
        BlackenLine(Top, Plug(c, t));
        r := Blacken(Plug(c, t));
        Paint(elm, Black, Top, Plug(c, t));
      } else {
        AroundHole(elm, parent, c, t);
        DeficitPaid(c, t);
        BlackenLine(c, t);
        FittedRest(c, Blacken(t));
        r := Plug(c, Blacken(t));
        if elm != null {
          Paint(elm, Black, c, t);
        }
        Whole(St(), c, Blacken(t));
      }
    }

    // ----- order and search -----

    /** The red-black invariants with null leaves: an acyclic tree whose parent and child pointers agree,
        keys ascending, black root, no red node below a red one, equal black heights. */
    ghost predicate Valid()
      reads this, nodes
    {
      && Focused(St(), Top, tree) && RbTree(tree) && Ascending(Line(tree))
      && forall n :: n in nodes ==> n in Line(tree)
    }

    /** The elements, in order. */
    ghost function Elems(): seq<NtyNode?>
      reads this`tree
    {
      Line(tree)
    }

    constructor ()
      ensures Valid() && Elems() == [] && nodes == {}
    {
      root := null;
      nodes, tree := {}, Leaf;
      new;
      assert Rb(tree, 0);
    }

    /** `RB_FIND`. */
    method Find(key: int) returns (tmp: NtyNode?)
      requires Valid()
      ensures tmp == null <==> !Keyed(Elems(), key)
      ensures tmp != null ==> tmp in Elems() && tmp.key == key
    {
      ghost var c, t, p;
      tmp, p, c, t := Descend(key);
      FocusHeap(c, t);
      Reached(c, t, key);
    }

    /** The search loop shared by find and insert: to the key's node, or to the leaf where it belongs. */
    method Descend(key: int) returns (tmp: NtyNode?, parent: NtyNode?, ghost c: Path, ghost t: Shape)
      requires Valid()
      ensures Focused(St(), c, t) && Plug(c, t) == tree && tmp == RootOf(t, null) && parent == ParentOf(c, null)
      ensures if t.Node? then tmp != null && tmp.key == key else tmp == null && Fits(c, key)
    {
      hide RbTree, Ascending, Fits;
      tmp, parent := root, null;
      c, t := Top, tree;
      FocusHeap(c, t);
      FitsAtTop(key);
      while tmp != null
        invariant Focused(St(), c, t) && Plug(c, t) == tree && tmp == RootOf(t, null) && Fits(c, key)
        invariant parent == ParentOf(c, null)
        decreases t
      {
        FocusHeap(c, t);
        if key < tmp.key {
          GoLeft(c, t, key);
          DownLeft(St(), c, t);
          parent := tmp;
          tmp := tmp.left;
          c, t := InLeft(c, t.p, t.color, t.entry, t.right), t.left;
        } else if key > tmp.key {
          GoRight(c, t, key);
          DownRight(St(), c, t);
          parent := tmp;
          tmp := tmp.right;
          c, t := InRight(c, t.p, t.color, t.entry, t.left), t.right;
        } else {
          return;
        }
      }
      FocusHeap(c, t);
    }

    /** `RB_NFIND`: the first element whose key is at least `key`; `i` says where it stands. */
    method NFind(key: int) returns (res: NtyNode?, ghost i: nat)
      requires Valid()
      ensures i <= |Elems()| && AllBelow(Elems()[..i], key)
      ensures if i < |Elems()| then res == Elems()[i] && KeyOf(res) >= key else res == null
    {
      hide RbTree, Ascending, Fits, AllBelow, AllAbove;
      var tmp := root;
      res := null;
      ghost var c: Path, t := Top, tree;
      FocusHeap(c, t);
      FitsAtTop(key);
      while tmp != null
        invariant Focused(St(), c, t) && Plug(c, t) == tree && tmp == RootOf(t, null) && Fits(c, key)
        invariant res == if After(c) == [] then null else After(c)[0]
        decreases t
      {
        FocusHeap(c, t);
        if key < tmp.key {
          GoLeft(c, t, key);
          DownLeft(St(), c, t);
          res := tmp;
          tmp := tmp.left;
          c, t := InLeft(c, t.p, t.color, t.entry, t.right), t.left;
        } else if key > tmp.key {
          GoRight(c, t, key);
          DownRight(St(), c, t);
          tmp := tmp.right;
          c, t := InRight(c, t.p, t.color, t.entry, t.left), t.right;
        } else {
          i := |Before(c) + Line(t.left)|;
          FoundAt(c, t);
          return tmp, i;
        }
      }
      FocusHeap(c, t);
      i := |Before(c)|;
      FellOffAt(c, t, key);
    }

    /** `RB_MINMAX`: the first or the last element. */
    method MinMax(val: int) returns (parent: NtyNode?)
      requires Valid()
      ensures parent == if Elems() == [] then null else if val < 0 then Elems()[0] else Elems()[|Elems()| - 1]
    {
      hide RbTree, Ascending;
      var tmp := root;
      parent := null;
      ghost var c: Path, t := Top, tree;
      FocusHeap(c, t);
      while tmp != null
        invariant Focused(St(), c, t) && Plug(c, t) == tree && tmp == RootOf(t, null) && parent == ParentOf(c, null)
        invariant if val < 0 then Before(c) == [] else After(c) == []
        invariant if val < 0 then !c.InRight? else !c.InLeft?
        decreases t
      {
        FocusHeap(c, t);
        parent := tmp;
        if val < 0 {
          DownLeft(St(), c, t);
          tmp := tmp.left;
          c, t := InLeft(c, t.p, t.color, t.entry, t.right), t.left;
        } else {
          DownRight(St(), c, t);
          tmp := tmp.right;
          c, t := InRight(c, t.p, t.color, t.entry, t.left), t.right;
        }
      }
      FocusHeap(c, t);
      EndOfLine(c, t);
    }

    /** The focus on an element. */
    lemma {:induction false} Locate(c0: Path, t0: Shape, p: NtyNode?) returns (c: Path, t: Shape)
      requires Focused(St(), c0, t0) && p in Line(t0)
      ensures Focused(St(), c, t) && Plug(c, t) == Plug(c0, t0) && t.Node? && t.p == p
      decreases t0
    {
      if t0.p == p {
        c, t := c0, t0;
      } else if p in Line(t0.left) {
        DownLeft(St(), c0, t0);
        c, t := Locate(InLeft(c0, t0.p, t0.color, t0.entry, t0.right), t0.left, p);
      } else {
        DownRight(St(), c0, t0);
        c, t := Locate(InRight(c0, t0.p, t0.color, t0.entry, t0.left), t0.right, p);
      }
    }

    /** `RB_NEXT`: the element after the `i`-th. */
    method Next(elm0: NtyNode, ghost i: nat) returns (elm: NtyNode?)
      requires Valid() && i < |Elems()| && Elems()[i] == elm0
      ensures elm == if i + 1 < |Elems()| then Elems()[i + 1] else null
    {
      hide Focused, RbTree;
      ghost var c, t := Locate(Top, tree, elm0);
      FocusHeap(c, t);
      StandsAt(c, t, i);
      if elm0.right != null {
        DownRight(St(), c, t);
        ghost var c', t';
        elm, c', t' := Leftmost(elm0.right, InRight(c, t.p, t.color, t.entry, t.left), t.right, elm0);
      } else {
        WhichChild(c, t);
        if elm0.parent != null && elm0 == elm0.parent.left {
          elm := elm0.parent;
        } else {
          elm := Climb(elm0, c, t);
        }
      }
    }

    /** Left as far as it goes.  A path through `z` stays one. */
    method Leftmost(x: NtyNode, ghost c: Path, ghost t: Shape, ghost z: NtyNode?)
      returns (elm: NtyNode, ghost c': Path, ghost t': Shape)
      requires Focused(St(), c, t) && t.Node? && t.p == x
      ensures Focused(St(), c', t') && Plug(c', t') == Plug(c, t)
      ensures t'.Node? && t'.p == elm && t'.left.Leaf? && Before(c') == Before(c)
      ensures Line(t) != [] && Line(t)[0] == elm
      ensures MinPath(c, z) ==> MinPath(c', z) && PathLeft(c', z) == PathLeft(c, z)
    {
      elm := x;
      c', t' := c, t;
      FocusHeap(c', t');
      FirstOf(t');
      while elm.left != null
        invariant Focused(St(), c', t') && Plug(c', t') == Plug(c, t) && t'.Node? && t'.p == elm
        invariant Before(c') == Before(c) && Line(t') != [] && Line(t) != [] && Line(t')[0] == Line(t)[0]
        invariant MinPath(c, z) ==> MinPath(c', z) && PathLeft(c', z) == PathLeft(c, z)
        decreases t'
      {
        FocusHeap(c', t');
        FirstOf(t');
        DownLeft(St(), c', t');
        c', t' := InLeft(c', t'.p, t'.color, t'.entry, t'.right), t'.left;
        elm := elm.left;
        FocusHeap(c', t');
      }
      FocusHeap(c', t');
      FirstOf(t');
    }

    /** The last loop of `RB_NEXT`: up until a left child is left behind. */
    method Climb(elm0: NtyNode, ghost c: Path, ghost t: Shape) returns (elm: NtyNode?)
      requires Focused(St(), c, t) && t.Node? && t.p == elm0
      ensures elm == if After(c) == [] then null else After(c)[0]
    {
      var x := elm0;
      ghost var c', t' := c, t;
      WhichChild(c', t');
      while x.parent != null && x == x.parent.right
        invariant Focused(St(), c', t') && t'.Node? && t'.p == x && After(c') == After(c)
        invariant x.parent == ParentOf(c', null) && (x.parent == null <==> c'.Top?)
        invariant !c'.Top? ==> c'.p in nodes && (x == c'.p.right <==> c'.InRight?)
        decreases c'
      {
        Up(St(), c', t');
        x := x.parent;
        c', t' := c'.up, Lift(c', t');
        WhichChild(c', t');
      }
      elm := x.parent;
    }

    lemma WhichChild(c: Path, t: Shape)
      requires Focused(St(), c, t) && t.Node?
      ensures t.p != null && t.p.parent == ParentOf(c, null) && (t.p.parent == null <==> c.Top?)
      ensures !c.Top? ==> c.p in nodes && (t.p == c.p.right <==> c.InRight?) && (t.p == c.p.left <==> c.InLeft?)
    {
      if !c.Top? && c.other.Node? {
        assert c.other.p in Ptrs(c.other) && c.other.p in CtxPtrs(c) && t.p in Ptrs(t);
      }
    }

    lemma NoNull()
      requires Valid()
      ensures null !in Elems()
    {
      TreeInStore(St().m, tree, null, null);
      LinePtrs(tree);
    }

    /** `RB_FOREACH` visits every element once, in increasing order. */
    method ForEach() returns (visited: seq<NtyNode?>)
      requires Valid()
      ensures visited == Elems()
    {
      visited := [];
      NoNull();
      var x := MinMax(-1);
      while x != null
        invariant |visited| <= |Elems()| && visited == Elems()[..|visited|]
        invariant x == if |visited| < |Elems()| then Elems()[|visited|] else null
        decreases |Elems()| - |visited|
      {
        visited := visited + [x];
        x := Next(x, |visited| - 1);
      }
    }

    /** `RB_INSERT`: the element, unless one with its key is there; `i` says where it goes. */
    method Insert(elm: NtyNode) returns (tmp: NtyNode?, ghost i: nat)
      requires Valid() && elm !in Elems()
      modifies this, nodes, elm
      ensures Valid() && nodes <= old(nodes) + {elm}
      ensures tmp == null <==> !Keyed(old(Elems()), elm.key)
      ensures tmp != null ==> Elems() == old(Elems()) && tmp in Elems() && tmp.key == elm.key
      ensures tmp == null ==> i <= |old(Elems())| && Elems() == old(Elems())[..i] + [elm] + old(Elems())[i..]
    {
      hide Focused, RbTree, Ascending, Fits, Keyed;
      var parent;
      ghost var c, t;
      tmp, parent, c, t := Descend(elm.key);
      FocusHeap(c, t);
      Reached(c, t, elm.key);
      i := |Before(c)|;
      if tmp != null {
        return;
      }
      ghost var leaf := Node(Leaf, elm, Red, NOTHING, Leaf);
      PlantedRb(c, t, leaf);
      PlantedLine(c, t, elm);
      PlantNode(elm, parent, c);
      ghost var before := tree;
      tree := InsertColor(elm, c, leaf);
      assert Line(before) == Line(before)[..i] + Line(before)[i..];
    }

    method PlantNode(elm: NtyNode, parent: NtyNode?, ghost c: Path)
      requires Focused(St(), c, Leaf) && elm !in nodes && parent == ParentOf(c, null) && Fits(c, elm.key)
      modifies this`root, this`nodes, nodes, elm
      ensures nodes == old(nodes) + {elm} && Focused(St(), c, Node(Leaf, elm, Red, NOTHING, Leaf))
    {
      hide St, Focused, Fits, Plant;
      ghost var s, r := St(), elm.Fields();
      WhichSide(c, elm.key);
      FocusHeap(c, Leaf);
      NewRecord(elm);
      Planted(s, c, elm, r);
      PlantOrder(s.(m := s.m[elm := r]), elm, parent, c.InLeft?);
      AddNode(elm);
      RbSet(elm, parent);
      LinkAbove(elm, parent);
    }

    lemma NewRecord(elm: NtyNode)
      requires elm !in nodes
      ensures elm !in St().m && St().nil == null
    {}

    ghost method AddNode(elm: NtyNode)
      requires elm !in nodes
      modifies this`nodes
      ensures nodes == old(nodes) + {elm} && St() == old(St()).(m := old(St()).m[elm := elm.Fields()])
    {
      nodes := nodes + {elm};
    }

    /** `RB_SET`. */
    method RbSet(elm: NtyNode, parent: NtyNode?)
      requires elm in nodes
      modifies elm
      ensures St() == SetColor(SetRight(SetLeft(SetParent(old(St()), elm, parent), elm, null), elm, null), elm, Red)
    {
      PutParent(elm, parent);
      PutLeft(elm, null);
      PutRight(elm, null);
      PutColor(elm, Red);
    }

    /** The link from above. */
    method LinkAbove(elm: NtyNode, parent: NtyNode?)
      requires parent != null ==> parent in nodes
      modifies this`root, nodes
      ensures St() == (if parent == null then old(St()).(root := elm)
                       else if elm.key < parent.key then SetLeft(old(St()), parent, elm)
                       else SetRight(old(St()), parent, elm))
    {
      if parent != null {
        if elm.key < parent.key {
          PutLeft(parent, elm);
        } else {
          PutRight(parent, elm);
        }
      } else {
        root := elm;
      }
    }

    // ----- removal -----

    /** A node with at most one child leaves the tree, and its child takes its place. */
    method SpliceOut(elm: NtyNode, child: NtyNode?, parent: NtyNode?, ghost c: Path, ghost t: Shape)
      requires Focused(St(), c, t) && OneChild(t) && t.p == elm && child == RootOf(OnlyChild(t), null)
               && parent == elm.parent
      modifies this`root, nodes
      ensures Focused(St(), c, OnlyChild(t)) && elm in nodes && elm.Fields() == old(elm.Fields())
    {
      hide Focused;
      FocusHeap(c, t);
      ParentApart(c, t);
      ghost var s := St();
      Spliced(s, c, t);
      NilScratch(Splice(s, elm, child), c, OnlyChild(t), null);
      BypassNode(elm, child, parent);
    }

    method BypassNode(elm: NtyNode, child: NtyNode?, parent: NtyNode?)
      requires elm in nodes && parent == elm.parent && (parent != null ==> parent in nodes && parent != elm)
      requires child != null ==> child in nodes && child != elm
      modifies this`root, nodes
      ensures child != null ==> St() == Splice(old(St()), elm, child)
      ensures child == null ==> St() == SetParent(Splice(old(St()), elm, child), null, null)
      ensures elm.Fields() == old(elm.Fields())
    {
      hide Splice, Replace;
      ghost var s := St();
      SpliceIs(s, elm, child, parent);
      if child != null {
        PutParent(child, parent);
      }
      ReplaceChild(elm, child);
      assert St().m[elm] == s.m[elm];
    }

    lemma ParentApart(c: Path, t: Shape)
      requires Focused(St(), c, t) && t.Node?
      ensures t.p != null && t.p.parent != t.p
    {
      assert t.p in Ptrs(t);
    }

    /** The removed node's place is taken over by `elm`, which is not linked in. */
    method MoveInto(gone: NtyNode, elm: NtyNode, ghost c: Path, ghost t: Shape)
      requires Focused(St(), c, t) && t.Node? && t.p == gone && t.left.Node?
      requires elm in nodes && elm !in Ptrs(t) && elm !in CtxPtrs(c)
      modifies this`root, nodes
      ensures Focused(St(), c, Renamed(t, elm, NOTHING))
    {
      hide Focused, TakeOver, Renamed;
      FocusHeap(c, t);
      ParentApart(c, t);
      TakenOver(St(), c, t, elm);
      Unstocked(elm);
      PresentKids(gone, elm);
      TakePlace(gone, elm);
    }

    lemma Unstocked(n: NtyNode)
      requires n in nodes
      ensures n in St().m && St().m[n].entry == NOTHING
    {}

    lemma PresentKids(gone: NtyNode, elm: NtyNode)
      requires gone in nodes && elm in nodes && elm != gone
      requires St().m[gone].parent == null || (St().m[gone].parent in St().m && St().m[gone].parent != elm)
      requires St().m[gone].left == null || St().m[gone].left in St().m
      requires St().m[gone].right == null || St().m[gone].right in St().m
      ensures gone.parent == null || (gone.parent in nodes && gone.parent != elm)
      ensures (gone.left == null || gone.left in nodes) && (gone.right == null || gone.right in nodes)
    {}

    method TakePlace(gone: NtyNode, elm: NtyNode)
      requires gone in nodes && elm in nodes && gone != elm && gone.left != null
      requires gone.parent == null || (gone.parent in nodes && gone.parent != elm && gone.parent != gone)
      requires gone.left in nodes && (gone.right == null || gone.right in nodes)
      modifies this`root, nodes
      ensures gone in old(St()).m && elm in old(St()).m && St() == TakeOver(old(St()), gone, elm)
    {
      CopyLinks(gone, elm);
      ghost var s := St();
      ReplaceChild(gone, elm);
      assert St().m[gone] == s.m[gone];
      AdoptKids(gone, elm);
    }

    method AdoptKids(gone: NtyNode, elm: NtyNode)
      requires gone in nodes && gone.left != null && gone.left in nodes && (gone.right == null || gone.right in nodes)
      modifies nodes
      ensures gone in old(St()).m && gone.left in old(St()).m && (gone.right == null || gone.right in old(St()).m)
      ensures gone.left == old(gone.left) && gone.right == old(gone.right)
      ensures var s1 := SetParent(old(St()), gone.left, elm);
              St() == if gone.right == null then s1 else SetParent(s1, gone.right, elm)
    {
      PutParent(gone.left, elm);
      if gone.right != null {
        PutParent(gone.right, elm);
      }
    }

    /** The structure assignment of the links. */
    method CopyLinks(gone: NtyNode, elm: NtyNode)
      requires gone in nodes && elm in nodes && gone != elm
      modifies elm
      ensures St() == old(St()).(m := old(St()).m[elm := old(gone.Fields())])
      ensures gone.Fields() == old(gone.Fields())
    {
      elm.color := gone.color;
      elm.left := gone.left;
      elm.right := gone.right;
      elm.parent := gone.parent;
    }

    /** `RB_REMOVE`: unlink the element itself, or its successor, which then moves into its place. */
    method Remove(elm: NtyNode, ghost i: nat) returns (gone: NtyNode)
      requires Valid() && i < |Elems()| && Elems()[i] == elm
      modifies this`root, this`tree, this`nodes, nodes
      ensures Valid() && gone == elm && nodes == old(nodes) - {elm}
      ensures Elems() == old(Elems())[..i] + old(Elems())[i + 1..]
    {
      hide Focused, RbTree, Ascending, Line, Plug, Before, After;
      PlugTop(tree);
      ghost var c, t := Locate(Top, tree, elm);
      RemovedLine(c, t, i);
      Detach(elm, c, t);
      Forget(elm);
      return elm;
    }

    lemma PlugTop(t: Shape)
      ensures Plug(Top, t) == t
    {}

    lemma PlugRight(c: Path, t: Shape)
      requires t.Node?
      ensures Plug(InRight(c, t.p, t.color, t.entry, t.left), t.right) == Plug(c, t)
    {}

    /** Unlinking and repair. */
    method Detach(elm: NtyNode, ghost c: Path, ghost t: Shape)
      requires Focused(St(), c, t) && t.Node? && t.p == elm && RbTree(Plug(c, t))
      modifies this`root, this`tree, nodes
      ensures Focused(St(), Top, tree) && RbTree(tree)
      ensures Line(tree) == (Before(c) + Line(t.left)) + (Line(t.right) + After(c))
    {
      hide Focused, RbTree, Deficient, Line, Plug, Before, After;
      var child, parent, color;
      ghost var c', k;
      child, parent, color, c', k := Unlink(elm, c, t);
      tree := Recover(color, parent, child, c', k);
    }

    /** Unlinking, with either number of children. */
    method Unlink(gone: NtyNode, ghost c: Path, ghost t: Shape)
      returns (child: NtyNode?, parent: NtyNode?, color: Color, ghost c': Path, ghost k: Shape)
      requires Focused(St(), c, t) && t.Node? && t.p == gone && RbTree(Plug(c, t))
      modifies this`root, nodes
      ensures Focused(St(), c', k) && child == RootOf(k, null) && parent == ParentOf(c', null)
      ensures Line(Plug(c', k)) == (Before(c) + Line(t.left)) + (Line(t.right) + After(c))
      ensures if color == Red then RbTree(Plug(c', k)) else Deficient(c', k)
    {
      hide Focused, RbTree, Deficient, Line, Plug;
      FocusHeap(c, t);
      if gone.left == null || gone.right == null {
        child := if gone.left == null then gone.right else gone.left;
        parent, color := gone.parent, gone.color;
        c', k := c, OnlyChild(t);
        SpliceCase(c, t);
        SplicedLine(c, t);
        SpliceOut(gone, child, parent, c, t);
      } else {
        child, parent, color, c', k := RemoveSuccessor(gone, c, t);
      }
    }

    /** The repair after an unlinking, which only a black node needs. */
    method Recover(color: Color, parent: NtyNode?, child: NtyNode?, ghost c: Path, ghost k: Shape)
      returns (ghost r: Shape)
      requires Focused(St(), c, k) && child == RootOf(k, null) && parent == ParentOf(c, null)
      requires if color == Red then RbTree(Plug(c, k)) else Deficient(c, k)
      modifies this`root, nodes
      ensures Focused(St(), Top, r) && RbTree(r) && Line(r) == Line(Plug(c, k))
    {
      hide Focused, RbTree, Deficient, Line, Plug;
      if color == Black {
        r := RemoveColor(parent, child, c, k);
      } else {
        Whole(St(), c, k);
        r := Plug(c, k);
      }
    }

    /** The removed node is no longer one of the tree's. */
    ghost method Forget(gone: NtyNode)
      requires Focused(St(), Top, tree) && RbTree(tree) && Ascending(Line(tree)) && gone !in Line(tree)
      requires forall n :: n in nodes ==> n == gone || n in Line(tree)
      modifies this`nodes
      ensures nodes == old(nodes) - {gone} && Valid()
    {
      ghost var m := St().m;
      LinePtrs(tree);
      nodes := nodes - {gone};
      TreeInStore(m, tree, null, null);
      TreeFrame(m, St().m, tree, null, null);
    }

    /** The two-child case: the successor is unlinked and moves into the removed node's place. */
    method RemoveSuccessor(gone: NtyNode, ghost c: Path, ghost t: Shape)
      returns (child: NtyNode?, parent: NtyNode?, color: Color, ghost c': Path, ghost k: Shape)
      requires Focused(St(), c, t) && t.Node? && t.p == gone && t.left.Node? && t.right.Node? && RbTree(Plug(c, t))
      modifies this`root, nodes
      ensures Focused(St(), c', k) && child == RootOf(k, null) && parent == ParentOf(c', null)
      ensures Line(Plug(c', k)) == (Before(c) + Line(t.left)) + (Line(t.right) + After(c))
      ensures if color == Red then RbTree(Plug(c', k)) else Deficient(c', k)
    {
      hide Focused, RbTree, Deficient, Line, Plug;
      FocusHeap(c, t);
      DownRight(St(), c, t);
      PlugRight(c, t);
      var elm;
      ghost var cy, ty;
      elm, cy, ty := Leftmost(gone.right, InRight(c, t.p, t.color, t.entry, t.left), t.right, gone);
      FocusHeap(cy, ty);
      Apart(gone, cy, ty);
      SpliceCase(cy, ty);
      k := ty.right;
      c' := Rename(cy, gone, elm, NOTHING);
      RenameCase(cy, k, gone, elm, NOTHING);
      SuccessorLine(c, t, cy, ty, elm);
      RenameShape(cy, gone, elm, NOTHING);
      child, parent, color := elm.right, elm.parent, elm.color;
      SpliceOut(elm, child, parent, cy, ty);
      if elm.parent == gone {
        parent := elm;
      }
      ZoomOut(St(), cy, k, gone);
      ZoomRenamed(cy, k, gone, elm, NOTHING);
      ZoomLeft(cy, k, gone);
      MoveInto(gone, elm, ZoomCtx(cy, gone), ZoomTree(cy, k, gone));
      ZoomIn(St(), c', k, elm);
    }

    lemma Apart(z: NtyNode, c: Path, t: Shape)
      requires Focused(St(), c, t) && OneChild(t) && MinPath(c, z)
      ensures t.p !in Ptrs(OnlyChild(t)) && t.p !in CtxPtrs(c) && t.p in nodes && t.p != null && t.p != z
      ensures t.p.parent == z <==> c.InRight?
    {
      RenameShape(c, z, z, NOTHING);
      if c.InLeft? {
        RenameShape(c.up, z, z, NOTHING);
      }
    }
  }

  /** A splice in two steps; below the null pointer nothing needs a parent. */
  lemma SpliceIs(s: Store<NtyNode?>, y: NtyNode?, x: NtyNode?, parent: NtyNode?)
    requires s.nil == null && y in s.m && x in s.m && x != y && null in s.m && s.m[null] == NullRec()
    requires parent == s.m[y].parent && (parent != null ==> parent in s.m) && parent != y && y != null
    ensures x != null ==> y in SetParent(s, x, parent).m && Splice(s, y, x) == Replace(SetParent(s, x, parent), y, x)
    ensures x == null ==> SetParent(Splice(s, y, x), null, null) == Replace(s, y, x)
    ensures Splice(s, y, x).m[y] == s.m[y] && y in Replace(s, y, x).m && Replace(s, y, x).m[y] == s.m[y]
  {
  }

  /** The assignments of `RB_SET` first and the link last, or the other way round. */
  lemma PlantOrder(s: Store<NtyNode?>, z: NtyNode?, y: NtyNode?, left: bool)
    requires z in s.m && z != null && z != y && s.nil == null && (y != null ==> y in s.m)
    ensures var s1 := SetColor(SetRight(SetLeft(SetParent(s, z, y), z, null), z, null), z, Red);
            Plant<NtyNode?>(s, z, y, left) == if y == null then s1.(root := z) else if left then SetLeft(s1, y, z)
                else SetRight(s1, y, z)
  {
  }

  lemma WhichSide(c: Path, key: int)
    requires Fits(c, key)
    ensures c.InLeft? ==> key < KeyOf(c.p)
    ensures c.InRight? ==> key > KeyOf(c.p)
  {
    if c.InRight? {
      assert c.p in Line(c.other) + [c.p];
    }
  }

  lemma PlantedLine(c: Path, t: Shape, elm: NtyNode)
    requires t.Leaf? && Ascending(Line(Plug(c, t))) && Fits(c, elm.key)
    ensures var was, line := Line(Plug(c, t)), Line(Plug(c, Node(Leaf, elm, Red, NOTHING, Leaf)));
            |Before(c)| <= |was| && line == was[..|Before(c)|] + [elm] + was[|Before(c)|..] && Ascending(line)
  {
    PlugLine(c, t);
    PlugLine(c, Node(Leaf, elm, Red, NOTHING, Leaf));
    assert Line<NtyNode?>(Leaf) + [elm] + Line<NtyNode?>(Leaf) == [elm];
    assert Before(c) + Line(t) + After(c) == Before(c) + After(c);
    AscendingParts(Before(c), After(c));
    AscendingParts(Before(c) + [elm], After(c));
    AscendingParts(Before(c), [elm]);
  }

  lemma FoundAt(c: Path, t: Shape)
    requires t.Node? && Ascending(Line(Plug(c, t)))
    ensures var i, line := |Before(c) + Line(t.left)|, Line(Plug(c, t));
            i < |line| && line[i] == t.p && AllBelow(line[..i], KeyOf(t.p))
  {
    NodeDivides(c, t);
    LineAround(c, t);
    var a := Before(c) + Line(t.left);
    assert Line(Plug(c, t))[..|a|] == a;
  }

  lemma FellOffAt(c: Path, t: Shape, key: int)
    requires t.Leaf? && Fits(c, key)
    ensures var i, line := |Before(c)|, Line(Plug(c, t));
            i <= |line| && AllBelow(line[..i], key)
            && if After(c) == [] then i == |line| else i < |line| && line[i] == After(c)[0] && KeyOf(line[i]) >= key
  {
    PlugLine(c, t);
    assert Before(c) + Line(t) + After(c) == Before(c) + After(c);
    assert Line(Plug(c, t))[..|Before(c)|] == Before(c);
  }

  lemma EndOfLine(c: Path, t: Shape)
    requires t.Leaf?
    ensures Before(c) == [] && !c.InRight? ==>
      if c.Top? then Line(Plug(c, t)) == [] else Line(Plug(c, t)) != [] && c.p == Line(Plug(c, t))[0]
    ensures After(c) == [] && !c.InLeft? ==>
      if c.Top? then Line(Plug(c, t)) == []
      else Line(Plug(c, t)) != [] && c.p == Line(Plug(c, t))[|Line(Plug(c, t))| - 1]
  {
    PlugLine(c, t);
  }

  lemma FirstOf(t: Shape)
    requires t.Node?
    ensures Line(t) != []
    ensures t.left.Leaf? ==> Line(t)[0] == t.p
    ensures t.left.Node? ==> Line(t.left) != [] && Line(t)[0] == Line(t.left)[0]
  {
  }

  lemma RemovedLine(c: Path, t: Shape, i: nat)
    requires t.Node? && Ascending(Line(Plug(c, t))) && i < |Line(Plug(c, t))| && Line(Plug(c, t))[i] == t.p
    ensures var line, rest := Line(Plug(c, t)), (Before(c) + Line(t.left)) + (Line(t.right) + After(c));
            && line[..i] + line[i + 1..] == rest && Ascending(rest)
            && t.p !in rest && forall n :: n in line ==> n == t.p || n in rest
  {
    NodeDivides(c, t);
    StandsAt(c, t, i);
    LineAround(c, t);
    var a, b := Before(c) + Line(t.left), Line(t.right) + After(c);
    AscendingParts(a + [t.p], b);
    AscendingParts(a, b);
    AscendingParts(a, [t.p]);
  }

  /** With the successor in its place, the removed node is gone from the line. */
  lemma SuccessorLine(c: Path, t: Shape, cy: Path, ty: Shape, y: NtyNode)
    requires t.Node? && ty.Node? && ty.left.Leaf? && ty.p == y && MinPath(cy, t.p)
    requires var c1 := InRight(c, t.p, t.color, t.entry, t.left);
             Plug(cy, ty) == Plug(c1, t.right) && Before(cy) == Before(c1)
    ensures Line(Plug(Rename(cy, t.p, y, NOTHING), ty.right)) == (Before(c) + Line(t.left)) + (Line(t.right) + After(c))
  {
    hide Line, Plug, Before, After, Rename, MinPath;
    var a := RenameLine(cy, t.p, y, NOTHING);
    var c1 := InRight(c, t.p, t.color, t.entry, t.left);
    PlugLine(cy, ty);
    PlugLine(c1, t.right);
    PlugLine(Rename(cy, t.p, y, NOTHING), ty.right);
    AroundRight(c, t);
    FirstInLine(ty, y);
    SameEnds(a, Before(c) + Line(t.left), t.p, [y] + Line(ty.right), After(cy), Line(t.right), After(c));
    Seqs.Assoc(a, [y], Line(ty.right));
    Seqs.Assoc(a, [y] + Line(ty.right), After(cy));
  }

  lemma AroundRight(c: Path, t: Shape)
    requires t.Node?
    ensures var c1 := InRight(c, t.p, t.color, t.entry, t.left);
            Before(c1) == (Before(c) + Line(t.left)) + [t.p] && After(c1) == After(c)
  {
    Seqs.Assoc(Before(c), Line(t.left), [t.p]);
  }

  lemma FirstInLine(t: Shape, y: NtyNode)
    requires t.Node? && t.left.Leaf? && t.p == y
    ensures Line(t) == [y] + Line(t.right)
  {}

  lemma SameEnds<T>(a: seq<T>, b: seq<T>, x: T, m: seq<T>, e: seq<T>, m': seq<T>, e': seq<T>)
    requires a + [x] == b + [x] && (a + [x]) + m + e == (b + [x]) + m' + e'
    ensures a == b && m + e == m' + e'
  {
    var n := |a| + 1;
    assert n == |a + [x]| == |b + [x]|;
    assert a == (a + [x])[..|a|] && b == (b + [x])[..|b|];
    assert m + e == ((a + [x]) + m + e)[n..] && m' + e' == ((b + [x]) + m' + e')[n..];
  }

  lemma {:induction false} ZoomLeft(c: Path, t: Shape, z: NtyNode?)
    requires MinPath(c, z)
    ensures ZoomTree(c, t, z).left == PathLeft(c, z)
    decreases c
  {
    if c.InLeft? {
      ZoomLeft(c.up, Lift(c, t), z);
    }
  }

  /** What is left of the node that the path starts from. */
  ghost function PathLeft(c: Path, z: NtyNode?): Shape
    requires MinPath(c, z)
  {
    if c.InRight? then c.other else PathLeft(c.up, z)
  }

  /** Where the focused node stands in an ascending line, and what comes next. */
  lemma StandsAt(c: Path, t: Shape, i: nat)
    requires t.Node? && Ascending(Line(Plug(c, t))) && i < |Line(Plug(c, t))| && Line(Plug(c, t))[i] == t.p
    ensures i == |Before(c) + Line(t.left)|
    ensures var line, rest := Line(Plug(c, t)), Line(t.right) + After(c);
            line[i + 1..] == rest && line[..i] == Before(c) + Line(t.left)
    ensures t.right.Node? ==> Line(t.right) != []
  {
    LineAround(c, t);
    var a, b := Before(c) + Line(t.left), Line(t.right) + After(c);
    var line := Line(Plug(c, t));
    assert line[|a|] == t.p;
    if t.right.Node? {
      FirstOf(t.right);
    }
  }

  // ----- ascending lines -----

  function KeyOf(p: NtyNode?): int { if p == null then 0 else p.key }

  ghost predicate Ascending(ps: seq<NtyNode?>) {
    forall i, j :: 0 <= i < j < |ps| ==> KeyOf(ps[i]) < KeyOf(ps[j])
  }

  ghost predicate AllBelow(ps: seq<NtyNode?>, key: int) { forall p :: p in ps ==> KeyOf(p) < key }

  ghost predicate AllAbove(ps: seq<NtyNode?>, key: int) { forall p :: p in ps ==> KeyOf(p) > key }

  ghost predicate Keyed(ps: seq<NtyNode?>, key: int) { exists p :: p in ps && KeyOf(p) == key }

  /** The hole is where the key belongs. */
  ghost predicate Fits(c: Path, key: int) { AllBelow(Before(c), key) && AllAbove(After(c), key) }

  lemma AscendingParts(a: seq<NtyNode?>, b: seq<NtyNode?>)
    ensures Ascending(a + b) <==> Ascending(a) && Ascending(b) && forall p, q :: p in a && q in b ==>
              KeyOf(p) < KeyOf(q)
  {
    var s := a + b;
    if Ascending(s) {
      forall i, j | 0 <= i < j < |a| ensures KeyOf(a[i]) < KeyOf(a[j]) {
        assert s[i] == a[i] && s[j] == a[j];
      }
      forall i, j | 0 <= i < j < |b| ensures KeyOf(b[i]) < KeyOf(b[j]) {
        assert s[|a| + i] == b[i] && s[|a| + j] == b[j];
      }
      forall p, q | p in a && q in b ensures KeyOf(p) < KeyOf(q) {
        var i :| 0 <= i < |a| && a[i] == p;
        var j :| 0 <= j < |b| && b[j] == q;
        assert s[i] == p && s[|a| + j] == q;
      }
    }
  }

  /** The focused node divides the line. */
  lemma NodeDivides(c: Path, t: Shape)
    requires t.Node? && Ascending(Line(Plug(c, t)))
    ensures AllBelow(Before(c) + Line(t.left), KeyOf(t.p)) && AllAbove(Line(t.right) + After(c), KeyOf(t.p))
    ensures t.p in Line(Plug(c, t))
  {
    LineAround(c, t);
    var a, b := Before(c) + Line(t.left), Line(t.right) + After(c);
    AscendingParts(a + [t.p], b);
    AscendingParts(a, [t.p]);
    assert t.p in [t.p] && t.p in a + [t.p];
  }

  lemma FitsAtTop(key: int)
    ensures Fits(Top, key)
  {
  }

  lemma GoLeft(c: Path, t: Shape, key: int)
    requires t.Node? && Ascending(Line(Plug(c, t))) && Fits(c, key) && key < KeyOf(t.p)
    ensures Fits(InLeft(c, t.p, t.color, t.entry, t.right), key)
  {
    NodeDivides(c, t);
  }

  lemma GoRight(c: Path, t: Shape, key: int)
    requires t.Node? && Ascending(Line(Plug(c, t))) && Fits(c, key) && key > KeyOf(t.p)
    ensures Fits(InRight(c, t.p, t.color, t.entry, t.left), key)
  {
    NodeDivides(c, t);
  }

  lemma Reached(c: Path, t: Shape, key: int)
    requires Ascending(Line(Plug(c, t)))
    requires if t.Node? then KeyOf(t.p) == key else Fits(c, key)
    ensures if t.Node? then t.p in Line(Plug(c, t)) && Keyed(Line(Plug(c, t)), key) else !Keyed(Line(Plug(c, t)), key)
  {
    if t.Node? {
      NodeDivides(c, t);
    } else {
      PlugLine(c, t);
    }
  }
}
