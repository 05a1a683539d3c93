/** The red-black engine of the key-value store: nodes with parent pointers around a shared
    sentinel, relinked in place. */
module RbEngine {
  import opened StrOrder
  import opened Dict
  import opened RbStore
  import opened RbColors
  import opened RbDelete
  import opened Options
  import Seqs

  class RbNode {
    var color: Color
    var left: RbNode
    var right: RbNode
    var parent: RbNode
    var key: string
    var value: string

    /** The sentinel points at itself. */
    constructor Sentinel()
      ensures color == Black && left == this && right == this
    {
      color := Black;
      left, right, parent := this, this, this;
      key, value := "", "";
    }

    constructor (key: string, value: string, nil: RbNode)
      ensures this.key == key && this.value == value
    {
      color := Red;
      left, right, parent := nil, nil, nil;
      this.key, this.value := key, value;
    }

    ghost function Fields(): Rec<RbNode>
      reads this
    {
      Rec(color, left, right, parent, Entry(key, value))
    }
  }

  class RbTreeEngine {
    var root: RbNode
    var nil: RbNode
    /** Every node ever linked in, and the sentinel. */
    ghost var nodes: set<RbNode>
    /** The tree that the pointers form. */
    ghost var tree: Tree<RbNode>

    /** The red-black invariants on the heap: an acyclic tree whose parent and child pointers agree
        around an intact sentinel, keys in order, black root, no red node below a red one, equal
        black heights. */
    ghost predicate Valid()
      reads this, nodes
    {
      Focused(St(), Top, tree) && RbTree(tree) && Sorted(Inorder(tree))
    }

    /** The map that the engine stands for. */
    ghost function Map(): map<string, string>
      reads this`tree
    {
      AsMap(Inorder(tree))
    }

    /** The heap as a store. */
    ghost function St(): Store<RbNode>
      reads this`root, this`nil, this`nodes, nodes
    {
      Store(map n | n in nodes :: n.Fields(), root, nil)
    }

    /** `kvs_rbtree_create`. */
    constructor ()
      ensures Valid() && fresh(nodes) && Map() == map[]
    {
      var n := new RbNode.Sentinel();
      nil, root := n, n;
      nodes, tree := {n}, Leaf;
      new;
      assert Rb(tree, 0);
    }

    // ----- field assignments -----

    method PutColor(n: RbNode, color: Color)
      requires n in nodes
      modifies n`color
      ensures St() == SetColor(old(St()), n, color)
    {
      n.color := color;
    }

    method PutLeft(n: RbNode, q: RbNode)
      requires n in nodes
      modifies n`left
      ensures St() == SetLeft(old(St()), n, q)
    {
      n.left := q;
    }

    method PutRight(n: RbNode, q: RbNode)
      requires n in nodes
      modifies n`right
      ensures St() == SetRight(old(St()), n, q)
    {
      n.right := q;
    }

    method PutParent(n: RbNode, q: RbNode)
      requires n in nodes
      modifies n`parent
      ensures St() == SetParent(old(St()), n, q)
    {
      n.parent := q;
    }

    // ----- rotations -----

    /** Whoever pointed at `x` from above points at `y` instead. */
    method ReplaceChild(x: RbNode, y: RbNode)
      requires x in nodes && (x.parent != nil ==> x.parent in nodes)
      modifies this`root, nodes
      ensures St() == Replace(old(St()), x, y)
    {
      if x.parent == nil {
        root := y;
      } else if x == x.parent.left {
        PutLeft(x.parent, y);
      } else {
        PutRight(x.parent, y);
      }
    }

    /** `rbtree_left_rotate`. */
    method LeftRotate(x: RbNode)
      requires CanRotateLeft(St(), x)
      modifies this`root, nodes
      ensures St() == RotateLeft(old(St()), x)
    {
      var y := x.right;
      PutRight(x, y.left);
      if y.left != nil {
        PutParent(y.left, x);
      }
      PutParent(y, x.parent);
      ReplaceChild(x, y);
      PutLeft(y, x);
      PutParent(x, y);
    }

    /** `rbtree_right_rotate`. */
    method RightRotate(y: RbNode)
      requires CanRotateRight(St(), y)
      modifies this`root, nodes
      ensures St() == RotateRight(old(St()), y)
    {
      var x := y.left;
      PutLeft(y, x.right);
      if x.right != nil {
        PutParent(x.right, y);
      }
      PutParent(x, y.parent);
      ReplaceChild(y, x);
      PutRight(x, y);
      PutParent(y, x);
    }

    // ----- the same, seen through a focus -----

    method Paint(n: RbNode, color: Color, ghost c: Ctx<RbNode>, ghost t: Tree<RbNode>)
      requires Focused(St(), c, t) && t.Node? && t.p == n
      modifies n`color
      ensures Focused(St(), c, t.(color := color)) && n in nodes && St() == SetColor(old(St()), n, color)
    {
      Coloured(St(), c, t, color);
      PutColor(n, color);
    }

    method TurnLeft(x: RbNode, ghost c: Ctx<RbNode>, ghost t: Tree<RbNode>)
      requires Focused(St(), c, t) && t.Node? && t.right.Node? && t.p == x
      modifies this`root, nodes
      ensures Focused(St(), c, Lefted(t)) && nil in nodes && nil.parent == old(nil.parent)
    {
      RotatedLeft(St(), c, t);
      LeftRotate(x);
    }

    method TurnRight(y: RbNode, ghost c: Ctx<RbNode>, ghost t: Tree<RbNode>)
      requires Focused(St(), c, t) && t.Node? && t.left.Node? && t.p == y
      modifies this`root, nodes
      ensures Focused(St(), c, Righted(t)) && nil in nodes && nil.parent == old(nil.parent)
    {
      RotatedRight(St(), c, t);
      RightRotate(y);
    }

    // ----- insertion repair -----

    /** A red node and a red parent, left child of the grandparent: the three pointers that the
        repair reads. */
    lemma Relatives(z: RbNode, c: Ctx<RbNode>, t: Tree<RbNode>)
      requires Focused(St(), c, t) && t.Node? && t.p == z && Reddened(c, t) && RedAbove(c)
      ensures z in nodes && z.parent == c.p && c.p in nodes && c.p.parent == c.up.p && c.up.p in nodes && !c.up.Top?
      ensures c.up.InLeft? ==> c.up.p.left == c.p && c.up.p.right == RootOf(c.up.other, nil)
      ensures c.up.InRight? ==> c.up.p.left == RootOf(c.up.other, nil) != c.p && c.up.p.right == c.p
      ensures c.InLeft? ==> c.p.left == z && c.p.right != z
      ensures c.InRight? ==> c.p.right == z && c.p.left != z
      ensures RootOf(c.up.other, nil) in nodes
      ensures RootOf(c.up.other, nil).color == Red <==> !BlackRoot(c.up.other)
    {
      var u := c.up;
      assert IsCtx(St().m, u, c.p, nil) && IsTree(St().m, u.other, u.p, nil) && DistinctCtx(u);
      assert u.other.Node? ==> u.other.p in Ptrs(u.other);
      assert c.other.Node? ==> c.other.p in Ptrs(c.other) && c.other.p in CtxPtrs(c);
      assert z in Ptrs(t) && c.p in CtxPtrs(c) && u.p in CtxPtrs(u);
      CtxInStore(St().m, c, z, nil);
    }

    ghost predicate Going(z: RbNode, c: Ctx<RbNode>, t: Tree<RbNode>) {
      t.Node? && t.p == z && Reddened(c, t)
    }

    ghost predicate Done(z: RbNode, c: Ctx<RbNode>, t: Tree<RbNode>)
      reads z, z.parent
    {
      t.Node? && Fitted(c, t) && z.parent.color == Black
    }

    lemma RecolouredIs(c: Ctx<RbNode>, t: Tree<RbNode>)
      requires RedAbove(c) && !c.up.Top? && c.up.other.Node?
      ensures Lift(c, t).Node? && Lift(WithOther(c.up, c.up.other.(color := Black)), Lift(c, t).(color := Black)).Node?
      ensures Recoloured(c, t) == Lift(WithOther(c.up, c.up.other.(color := Black)),
                                       Lift(c, t).(color := Black)).(color := Red)
    {}

    /** Red uncle: recolour, and go on at the grandparent. */
    method Recolour(z: RbNode, y: RbNode, ghost c: Ctx<RbNode>, ghost t: Tree<RbNode>)
      requires Focused(St(), c, t) && t.Node? && t.p == z && Reddened(c, t) && RedAbove(c)
      requires c.up.other.Node? && y == c.up.other.p
      modifies nodes
      ensures Focused(St(), c.up.up, Recoloured(c, t)) && z.parent == c.p && c.p.parent == c.up.p
    {
      hide St, Focused, Reddened, Recoloured;
      Relatives(z, c, t);
      RecolouredIs(c, t);
      ghost var p1 := Lift(c, t);
      Up(St(), c, t);
      Paint(z.parent, Black, c.up, p1);
      ghost var p2 := p1.(color := Black);
      PaintSibling(y, Black, c.up, p2);
      ghost var side := WithOther(c.up, c.up.other.(color := Black));
      Up(St(), side, p2);
      Paint(z.parent.parent, Red, c.up.up, Lift(side, p2));
    }

    /** Parent black, grandparent red: the recolouring before the last rotation. */
    method Swap(z: RbNode, ghost c: Ctx<RbNode>, ghost t: Tree<RbNode>) returns (ghost g: Tree<RbNode>)
      requires Focused(St(), c, t) && t.Node? && t.p == z && Reddened(c, t) && RedAbove(c)
      modifies nodes
      ensures g == Swapped(c, t)
      ensures Focused(St(), c.up.up, g)
      ensures z.parent == c.p && c.p.parent == c.up.p
    {
      hide St, Focused, Reddened;
      Relatives(z, c, t);
      Up(St(), c, t);
      Paint(z.parent, Black, c.up, Lift(c, t));
      Up(St(), c.up, Lift(c, t).(color := Black));
      Paint(z.parent.parent, Red, c.up.up, Lift(c.up, Lift(c, t).(color := Black)));
      g := Swapped(c, t);
    }

    /** An inner grandchild: the rotation at the parent, which becomes the node to go on with. */
    method InnerLeft(z: RbNode, ghost c: Ctx<RbNode>, ghost t: Tree<RbNode>)
      returns (ghost c': Ctx<RbNode>, ghost t': Tree<RbNode>)
      requires Focused(St(), c, t) && t.Node? && Reddened(c, t) && RedAbove(c) && c.InRight? && z == c.p
      modifies this`root, nodes
      ensures Focused(St(), c', t') && Inorder(Plug(c', t')) == Inorder(Plug(c, t))
      ensures c'.InLeft? && c'.up == c.up && RedAbove(c') && t'.Node? && t'.p == z && Reddened(c', t')
    {
      hide St, Focused;
      var p := Lift(c, t);
      Up(St(), c, t);
      InnerOk(c, t);
      InnerEntries(c, t);
      TurnLeft(z, c.up, p);
      DownLeft(St(), c.up, Lefted(p));
      c', t' := InLeft(c.up, t.p, Red, t.entry, t.right), Lefted(p).left;
    }

    method InnerRight(z: RbNode, ghost c: Ctx<RbNode>, ghost t: Tree<RbNode>)
      returns (ghost c': Ctx<RbNode>, ghost t': Tree<RbNode>)
      requires Focused(St(), c, t) && t.Node? && Reddened(c, t) && RedAbove(c) && c.InLeft? && z == c.p
      modifies this`root, nodes
      ensures Focused(St(), c', t') && Inorder(Plug(c', t')) == Inorder(Plug(c, t))
      ensures c'.InRight? && c'.up == c.up && RedAbove(c') && t'.Node? && t'.p == z && Reddened(c', t')
    {
      hide St, Focused;
      var p := Lift(c, t);
      Up(St(), c, t);
      InnerOk(c, t);
      InnerEntries(c, t);
      TurnRight(z, c.up, p);
      DownRight(St(), c.up, Righted(p));
      c', t' := InRight(c.up, t.p, Red, t.entry, t.left), Righted(p).right;
    }

    /** After the last rotation the parent is the black root of the repaired subtree. */
    lemma OuterHeap(z: RbNode, c: Ctx<RbNode>, t: Tree<RbNode>)
      requires Focused(St(), c, t) && t.Node? && t.color == Black
      requires (t.left.Node? && t.left.p == z) || (t.right.Node? && t.right.p == z)
      ensures z in nodes && z.parent == t.p && t.p in nodes && t.p.color == Black
    {
      assert IsTree(St().m, t.left, t.p, nil) && IsTree(St().m, t.right, t.p, nil);
    }

    /** The repair when the parent is a left child. */
    method FixLeft(z: RbNode, ghost c: Ctx<RbNode>, ghost t: Tree<RbNode>)
      returns (z': RbNode, ghost c': Ctx<RbNode>, ghost t': Tree<RbNode>)
      requires Focused(St(), c, t) && Going(z, c, t) && RedAbove(c) && c.up.InLeft?
      modifies this`root, nodes
      ensures Focused(St(), c', t') && Inorder(Plug(c', t')) == Inorder(Plug(c, t)) && c' == c.up.up
      ensures Going(z', c', t') || Done(z', c', t')
    {
      Relatives(z, c, t);
      c' := c.up.up;
      var y := z.parent.parent.right;
      if y.color == Red {
        Recolour(z, y, c, t);
        RecolourOk(c, t);
        RecolourEntries(c, t);
        z' := z.parent.parent;
        t' := Recoloured(c, t);
      } else {
        ghost var c1, t1 := c, t;
        z' := z;
        if z == z.parent.right {
          z' := z.parent;
          c1, t1 := InnerLeft(z', c, t);
        }
        ghost var g := Swap(z', c1, t1);
        TurnRight(z'.parent.parent, c', g);
        t' := Outer(c1, t1);
        OuterOk(c1, t1);
        OuterEntries(c1, t1);
        OuterHeap(z', c', t');
      }
    }

    /** The repair when the parent is a right child. */
    method FixRight(z: RbNode, ghost c: Ctx<RbNode>, ghost t: Tree<RbNode>)
      returns (z': RbNode, ghost c': Ctx<RbNode>, ghost t': Tree<RbNode>)
      requires Focused(St(), c, t) && Going(z, c, t) && RedAbove(c) && c.up.InRight?
      modifies this`root, nodes
      ensures Focused(St(), c', t') && Inorder(Plug(c', t')) == Inorder(Plug(c, t)) && c' == c.up.up
      ensures Going(z', c', t') || Done(z', c', t')
    {
      Relatives(z, c, t);
      c' := c.up.up;
      var y := z.parent.parent.left;
      if y.color == Red {
        Recolour(z, y, c, t);
        RecolourOk(c, t);
        RecolourEntries(c, t);
        z' := z.parent.parent;
        t' := Recoloured(c, t);
      } else {
        ghost var c1, t1 := c, t;
        z' := z;
        if z == z.parent.left {
          z' := z.parent;
          c1, t1 := InnerRight(z', c, t);
        }
        ghost var g := Swap(z', c1, t1);
        TurnLeft(z'.parent.parent, c', g);
        t' := Outer(c1, t1);
        OuterOk(c1, t1);
        OuterEntries(c1, t1);
        OuterHeap(z', c', t');
      }
    }

    lemma ParentColor(z: RbNode, c: Ctx<RbNode>, t: Tree<RbNode>)
      requires Focused(St(), c, t) && t.Node? && t.p == z
      ensures z in nodes && z.parent == ParentOf(c, nil) && z.parent in nodes
      ensures z.parent.color == Red <==> RedAbove(c)
    {}

    /** Blacken the root of the whole tree. */
    method BlackenRoot(ghost c: Ctx<RbNode>, ghost t: Tree<RbNode>) returns (ghost r: Tree<RbNode>)
      requires Focused(St(), c, t) && (t.Node? || !c.Top?)
      modifies nodes
      ensures Focused(St(), Top, r) && r == Blacken(Plug(c, t))
    {
      Whole(St(), c, t);
      PlugNode(c, t);
      assert root == Plug(c, t).p;
      Paint(root, Black, Top, Plug(c, t));
      r := Blacken(Plug(c, t));
    }

    /** `rbtree_insert_fixup`. */
    method InsertFixup(z0: RbNode, ghost c0: Ctx<RbNode>, ghost t0: Tree<RbNode>) returns (ghost r: Tree<RbNode>)
      requires Focused(St(), c0, t0) && Going(z0, c0, t0)
      modifies this`root, nodes
      ensures Focused(St(), Top, r) && RbTree(r) && Inorder(r) == Inorder(Plug(c0, t0))
    {
      hide Focused, Reddened, Fitted, RbTree, Inorder, Plug;
      var z := z0;
      ghost var c, t := c0, t0;
      ParentColor(z, c, t);
      while z.parent.color == Red
        invariant Focused(St(), c, t) && Inorder(Plug(c, t)) == Inorder(Plug(c0, t0))
        invariant Going(z, c, t) || Done(z, c, t)
        decreases c
      {
        ParentColor(z, c, t);
        Relatives(z, c, t);
        if z.parent == z.parent.parent.left {
          z, c, t := FixLeft(z, c, t);
        } else {
          z, c, t := FixRight(z, c, t);
        }
      }
      if Going(z, c, t) {
        ParentColor(z, c, t);
      }
      FittedTree(c, t);
      r := BlackenRoot(c, t);
    }

    // ----- searching -----

    lemma FocusHeap(c: Ctx<RbNode>, t: Tree<RbNode>)
      requires Focused(St(), c, t)
      ensures nil in nodes && (t.Leaf?
              || (t.p in nodes && t.p != nil && t.p.key == t.entry.key && t.p.value == t.entry.value
                  && t.p.left == RootOf(t.left, nil) && t.p.right == RootOf(t.right, nil)
                  && t.p.parent == ParentOf(c, nil)
                  && t.p.color == t.color))
      ensures t.Node? ==> (t.p.left == nil <==> t.left.Leaf?) && (t.p.right == nil <==> t.right.Leaf?)
    {
      if t.Node? {
        assert IsTree(St().m, t.left, t.p, nil) && IsTree(St().m, t.right, t.p, nil);
      }
    }

    /** `rbtree_search`: the node, or the sentinel; the ghost results say where the search ended. */
    method Search(key: string) returns (node: RbNode, ghost c: Ctx<RbNode>, ghost t: Tree<RbNode>)
      requires Valid()
      ensures Focused(St(), c, t) && Plug(c, t) == tree && node == RootOf(t, nil)
      ensures t.Node? ==> node != nil && t.entry.key == key
      ensures t.Leaf? ==> Brackets(c, key)
    {
      node := root;
      c, t := Top, tree;
      while node != nil
        invariant Focused(St(), c, t) && Plug(c, t) == tree && node == RootOf(t, nil) && Brackets(c, key)
        decreases t
      {
        FocusHeap(c, t);
        CmpFlip(key, node.key);
        CmpEqual(key, node.key);
        if Cmp(key, node.key) < 0 {
          SearchLeft(c, t, key);
          DownLeft(St(), c, t);
          node := node.left;
          c, t := InLeft(c, t.p, t.color, t.entry, t.right), t.left;
        } else if Cmp(key, node.key) > 0 {
          SearchRight(c, t, key);
          DownRight(St(), c, t);
          node := node.right;
          c, t := InRight(c, t.p, t.color, t.entry, t.left), t.right;
        } else {
          return;
        }
      }
      FocusHeap(c, t);
    }

    /** `kvs_rbtree_get`. */
    method Get(key: string) returns (r: Option<string>)
      requires Valid()
      ensures r == if key in Map() then Some(Map()[key]) else None
    {
      var node;
      ghost var c, t;
      node, c, t := Search(key);
      SearchEnds(c, t, key);
      FocusHeap(c, t);
      if node == nil {
        return None;
      }
      return Some(node.value);
    }

    /** `kvs_rbtree_exist`. */
    method Exist(key: string) returns (r: int)
      requires Valid()
      ensures r == if key in Map() then 0 else 1
    {
      var node;
      ghost var c, t;
      node, c, t := Search(key);
      SearchEnds(c, t, key);
      FocusHeap(c, t);
      if node == nil {
        return 1;
      }
      return 0;
    }

    method PutValue(node: RbNode, value: string, ghost c: Ctx<RbNode>, ghost t: Tree<RbNode>)
      requires Focused(St(), c, t) && t.Node? && t.p == node
      modifies node`value
      ensures Focused(St(), c, t.(entry := Entry(t.entry.key, value)))
    {
      FocusHeap(c, t);
      Rewritten(St(), c, t, Entry(t.entry.key, value));
      ghost var s := SetEntry(St(), node, Entry(t.entry.key, value));
      node.value := value;
      assert St() == s;
    }

    /** `kvs_rbtree_mod`. */
    method Mod(key: string, value: string) returns (r: int)
      requires Valid()
      modifies this`tree, nodes
      ensures Valid()
      ensures r == if key in old(Map()) then 0 else 1
      ensures Map() == if key in old(Map()) then old(Map())[key := value] else old(Map())
    {
      hide Focused, Sorted, RbTree;
      var node;
      ghost var c, t;
      node, c, t := Search(key);
      SearchEnds(c, t, key);
      if node == nil {
        FocusHeap(c, t);
        return 1;
      }
      FocusHeap(c, t);
      RewrittenEntries(c, t, value);
      RewrittenRb(c, t, Entry(key, value));
      PutValue(node, value, c, t);
      Whole(St(), c, t.(entry := Entry(key, value)));
      tree := Plug(c, t.(entry := Entry(key, value)));
      return 0;
    }

    // ----- insertion -----

    /** The loop of `rbtree_insert`: down to the leaf where the key belongs, or to the key. */
    method Descend(key: string) returns (y: RbNode, present: bool, ghost c: Ctx<RbNode>, ghost t: Tree<RbNode>)
      requires Valid()
      ensures Focused(St(), c, t) && Plug(c, t) == tree && y in nodes
      ensures present ==> t.Node? && t.entry.key == key
      ensures !present ==> t.Leaf? && Brackets(c, key) && y == ParentOf(c, nil)
    {
      hide Sorted, RbTree, Brackets;
      y := nil;
      var x := root;
      c, t, present := Top, tree, false;
      FocusHeap(c, t);
      BracketsTop<RbNode>(key);
      while x != nil
        invariant Focused(St(), c, t) && Plug(c, t) == tree && x == RootOf(t, nil) && Brackets(c, key)
        invariant y == ParentOf(c, nil) && y in nodes
        decreases t
      {
        y := x;
        FocusHeap(c, t);
        CmpFlip(key, x.key);
        CmpEqual(key, x.key);
        if Cmp(key, x.key) < 0 {
          SearchLeft(c, t, key);
          DownLeft(St(), c, t);
          x := x.left;
          c, t := InLeft(c, t.p, t.color, t.entry, t.right), t.left;
        } else if Cmp(key, x.key) > 0 {
          SearchRight(c, t, key);
          DownRight(St(), c, t);
          x := x.right;
          c, t := InRight(c, t.p, t.color, t.entry, t.left), t.right;
        } else {
          present := true;
          return;
        }
      }
      FocusHeap(c, t);
    }

    /** `rbtree_insert`: walk down to the leaf where the key belongs, plant the node, repair.  A key
        that is already present leaves the tree alone. */
    method Insert(z: RbNode)
      requires Valid() && z !in nodes
      modifies this`root, this`nodes, this`tree, nodes, z
      ensures Valid() && nodes <= old(nodes) + {z}
      ensures Map() == if old(z.key) in old(Map()) then old(Map()) else old(Map())[old(z.key) := old(z.value)]
    {
      hide Focused, Sorted, RbTree, Brackets;
      var y, present;
      ghost var c, t;
      y, present, c, t := Descend(z.key);
      SearchEnds(c, t, z.key);
      if present {
        return;
      }
      ghost var e := Entry(z.key, z.value);
      ghost var leaf := Node(Leaf, z, Red, e, Leaf);
      PlantedEntries(c, t, z, Red, e);
      PlantedRb(c, t, leaf);
      PlantNode(z, y, c);
      tree := InsertFixup(z, c, leaf);
    }

    /** The linking half of `rbtree_insert`. */
    method PlantNode(z: RbNode, y: RbNode, ghost c: Ctx<RbNode>)
      requires Focused(St(), c, Leaf) && z !in nodes && y == ParentOf(c, nil) && y in nodes && Brackets(c, z.key)
      modifies this`root, this`nodes, nodes, z
      ensures nodes == old(nodes) + {z} && z.key == old(z.key) && z.value == old(z.value)
      ensures Focused(St(), c, Node(Leaf, z, Red, Entry(z.key, z.value), Leaf))
    {
      hide St, Focused, Brackets, Cmp, Plant, CtxPtrs;
      ghost var s, r := St(), z.Fields();
      SideOf(c, z.key);
      CtxHeap(c);
      NewRecord(z);
      Planted(s, c, z, r);
      PlantTop(s.(m := s.m[z := r]), z);
      AddNode(z);
      LinkLeaf(z, y);
    }

    ghost method AddNode(z: RbNode)
      requires z !in nodes
      modifies this`nodes
      ensures nodes == old(nodes) + {z} && St() == old(St()).(m := old(St()).m[z := z.Fields()])
    {
      nodes := nodes + {z};
    }

    lemma NewRecord(z: RbNode)
      requires z !in nodes
      ensures z !in St().m && St().nil == nil
    {}

    lemma PlantTop(s: Store<RbNode>, z: RbNode)
      requires z in s.m
      ensures Plant(s, z, s.nil, true) == Plant(s, z, s.nil, false)
    {}

    /** The pointer from above to the new leaf. */
    method LinkAbove(z: RbNode, y: RbNode)
      requires z in nodes && y in nodes
      modifies this`root, nodes
      ensures St() == (if y == nil then old(St()).(root := z)
                       else if Cmp(old(z.key), old(y.key)) < 0 then SetLeft(old(St()), y, z)
                       else SetRight(old(St()), y, z))
      ensures z.key == old(z.key) && z.value == old(z.value)
    {
      hide Cmp;
      if y == nil {
        root := z;
      } else if Cmp(z.key, y.key) < 0 {
        PutLeft(y, z);
      } else {
        PutRight(y, z);
      }
    }

    /** The assignments of `rbtree_insert` after its search. */
    method LinkLeaf(z: RbNode, y: RbNode)
      requires z in nodes && y in nodes
      modifies this`root, nodes
      ensures St() == Plant(old(St()), z, y, Cmp(old(z.key), old(y.key)) < 0)
      ensures z.key == old(z.key) && z.value == old(z.value)
    {
      hide Cmp;
      PutParent(z, y);
      LinkAbove(z, y);
      PutLeft(z, nil);
      PutRight(z, nil);
      PutColor(z, Red);
    }

    lemma CtxHeap(c: Ctx<RbNode>)
      requires Focused(St(), c, Leaf)
      ensures !c.Top? ==> c.p in nodes && c.p != nil && c.p.key == c.entry.key
      ensures c.Top? ==> ParentOf(c, nil) == nil
    {}

    /** `kvs_rbtree_set`; allocation failure is not modelled. */
    method Set(key: string, value: string) returns (r: int)
      requires Valid()
      modifies this`root, this`nodes, this`tree, nodes
      ensures Valid() && fresh(nodes - old(nodes))
      ensures r == if key in old(Map()) then 1 else 0
      ensures Map() == if key in old(Map()) then old(Map()) else old(Map())[key := value]
    {
      var node;
      ghost var c, t;
      node, c, t := Search(key);
      SearchEnds(c, t, key);
      FocusHeap(c, t);
      if node != nil {
        return 1;
      }
      var z := new RbNode(key, value, nil);
      Insert(z);
      return 0;
    }

    // ----- deletion repair -----

    /** What the repair reads around `x`, which may be the sentinel. */
    lemma AroundHole(x: RbNode, c: Ctx<RbNode>, t: Tree<RbNode>)
      requires Focused(St(), c, t) && x == RootOf(t, nil) && (t.Leaf? ==> nil.parent == ParentOf(c, nil))
      ensures nil in nodes && nil.color == Black && x in nodes && x.parent == ParentOf(c, nil)
      ensures x.color == Black <==> BlackRoot(t)
      ensures x == root <==> c.Top?
      ensures !c.Top? ==> c.p in nodes && c.p != nil && c.p.color == c.color
      ensures c.InLeft? ==> c.p.left == x && c.p.right == RootOf(c.other, nil)
      ensures c.InRight? ==> c.p.right == x && c.p.left == RootOf(c.other, nil) && (c.other.Node? ==> c.p.left != x)
      ensures !c.Top? && c.other.Node? ==>
        var w := c.other.p;
        && w in nodes && w.color == c.other.color
        && w.left == RootOf(c.other.left, nil) && w.right == RootOf(c.other.right, nil)
        && w.left in nodes && w.right in nodes
        && (w.left.color == Black <==> BlackRoot(c.other.left))
        && (w.right.color == Black <==> BlackRoot(c.other.right))
    {
      RootIsTop(c, t);
      if !c.Top? && c.other.Node? {
        assert IsTree(St().m, c.other, c.p, nil);
        assert IsTree(St().m, c.other.left, c.other.p, nil) && IsTree(St().m, c.other.right, c.other.p, nil);
        assert c.other.p in Ptrs(c.other) && c.other.p in CtxPtrs(c);
      }
    }

    lemma RootIsTop(c: Ctx<RbNode>, t: Tree<RbNode>)
      requires Focused(St(), c, t)
      ensures root == RootOf(t, nil) <==> c.Top?
    {
      if !c.Top? {
        TopInCtx(c, RootOf(t, nil));
        CtxInStore(St().m, c, RootOf(t, nil), nil);
        if t.Node? {
          assert t.p in Ptrs(t);
        }
      }
    }

    lemma {:induction false} TopInCtx(c: Ctx<RbNode>, hole: RbNode)
      requires !c.Top?
      ensures TopOf(c, hole) in CtxPtrs(c)
    {
      if !c.up.Top? {
        TopInCtx(c.up, c.p);
      }
    }

    method PaintSibling(w: RbNode, color: Color, ghost c: Ctx<RbNode>, ghost t: Tree<RbNode>)
      requires Focused(St(), c, t) && !c.Top? && c.other.Node? && w == c.other.p
      modifies w`color
      ensures Focused(St(), WithOther(c, c.other.(color := color)), t)
    {
      ToSibling(St(), c, t);
      Paint(w, color, Aside(c, t), c.other);
      FromSibling(St(), c, t, c.other.(color := color));
    }

    method PaintParent(p: RbNode, color: Color, ghost c: Ctx<RbNode>, ghost t: Tree<RbNode>)
      requires Focused(St(), c, t) && !c.Top? && p == c.p
      modifies p`color
      ensures Focused(St(), WithColor(c, color), t)
    {
      Up(St(), c, t);
      Paint(p, color, c.up, Lift(c, t));
      if c.InLeft? {
        DownLeft(St(), c.up, Lift(c, t).(color := color));
      } else {
        DownRight(St(), c.up, Lift(c, t).(color := color));
      }
    }

    /** A child of the sibling turns black. */
    method PaintNephew(n: RbNode, left: bool, ghost c: Ctx<RbNode>, ghost t: Tree<RbNode>)
      requires Focused(St(), c, t) && !c.Top? && c.other.Node?
      requires if left then c.other.left.Node? && n == c.other.left.p else c.other.right.Node? && n == c.other.right.p
      modifies n`color
      ensures left ==> Focused(St(), WithOther(c, c.other.(left := c.other.left.(color := Black))), t)
      ensures !left ==> Focused(St(), WithOther(c, c.other.(right := c.other.right.(color := Black))), t)
    {
      ghost var w := c.other;
      ToSibling(St(), c, t);
      if left {
        DownLeft(St(), Aside(c, t), w);
        ghost var side := InLeft(Aside(c, t), w.p, w.color, w.entry, w.right);
        Paint(n, Black, side, w.left);
        Up(St(), side, w.left.(color := Black));
        FromSibling(St(), c, t, w.(left := w.left.(color := Black)));
      } else {
        DownRight(St(), Aside(c, t), w);
        ghost var side := InRight(Aside(c, t), w.p, w.color, w.entry, w.left);
        Paint(n, Black, side, w.right);
        Up(St(), side, w.right.(color := Black));
        FromSibling(St(), c, t, w.(right := w.right.(color := Black)));
      }
    }

    /** A node is missing a black node on every path through it, or the repair is over. */
    ghost predicate Owing(x: RbNode, c: Ctx<RbNode>, t: Tree<RbNode>)
      reads this`root, this`nil, this`nodes, nodes
    {
      && Focused(St(), c, t) && x == RootOf(t, nil)
      && nil in nodes && (t.Leaf? ==> nil.parent == ParentOf(c, nil))
      && Deficient(c, t)
    }

    /** Case 1, on the left. */
    method RedRight(x: RbNode, w: RbNode, ghost c: Ctx<RbNode>, ghost t: Tree<RbNode>)
      requires Owing(x, c, t) && BlackRoot(t) && c.InLeft? && c.other.Node? && c.other.color == Red && w == c.other.p
      modifies this`root, nodes
      ensures Owing(x, RedSibling(c), t) && Inorder(Plug(RedSibling(c), t)) == Inorder(Plug(c, t))
    {
      hide St, Focused, Deficient;
      AroundHole(x, c, t);
      var sh := SiblingExists(c, t);
      RedSiblingOk(c, t);
      RedSiblingEntries(c, t);
      PaintSibling(w, Black, c, t);
      ghost var c1 := WithOther(c, c.other.(color := Black));
      PaintParent(x.parent, Red, c1, t);
      ghost var c2 := WithColor(c1, Red);
      Up(St(), c2, t);
      TurnLeft(x.parent, c.up, Lift(c2, t));
      DownLeft(St(), c.up, Lefted(Lift(c2, t)));
      DownLeft(St(), RedSibling(c).up, Lefted(Lift(c2, t)).left);
    }

    /** Case 1, on the right. */
    method RedLeft(x: RbNode, w: RbNode, ghost c: Ctx<RbNode>, ghost t: Tree<RbNode>)
      requires Owing(x, c, t) && BlackRoot(t) && c.InRight? && c.other.Node? && c.other.color == Red && w == c.other.p
      modifies this`root, nodes
      ensures Owing(x, RedSibling(c), t) && Inorder(Plug(RedSibling(c), t)) == Inorder(Plug(c, t))
    {
      hide St, Focused, Deficient;
      AroundHole(x, c, t);
      var sh := SiblingExists(c, t);
      RedSiblingOk(c, t);
      RedSiblingEntries(c, t);
      PaintSibling(w, Black, c, t);
      ghost var c1 := WithOther(c, c.other.(color := Black));
      PaintParent(x.parent, Red, c1, t);
      ghost var c2 := WithColor(c1, Red);
      Up(St(), c2, t);
      TurnRight(x.parent, c.up, Lift(c2, t));
      DownRight(St(), c.up, Righted(Lift(c2, t)));
      DownRight(St(), RedSibling(c).up, Righted(Lift(c2, t)).right);
    }

    /** Case 2, on either side. */
    method MoveUp(x: RbNode, w: RbNode, ghost c: Ctx<RbNode>, ghost t: Tree<RbNode>) returns (x': RbNode)
      requires Owing(x, c, t) && BlackRoot(t) && !c.Top? && c.other.Node? && c.other.color == Black && w == c.other.p
      requires BlackRoot(c.other.left) && BlackRoot(c.other.right)
      modifies nodes
      ensures Owing(x', c.up, MovedUp(c, t)) && Inorder(Plug(c.up, MovedUp(c, t))) == Inorder(Plug(c, t))
    {
      hide St, Focused, Deficient;
      AroundHole(x, c, t);
      MovedUpOk(c, t);
      MovedUpEntries(c, t);
      PaintSibling(w, Red, c, t);
      Up(St(), WithOther(c, c.other.(color := Red)), t);
      x' := x.parent;
    }

    /** Case 3, on the left. */
    method ToFarRight(x: RbNode, w: RbNode, ghost c: Ctx<RbNode>, ghost t: Tree<RbNode>)
      requires Owing(x, c, t) && BlackRoot(t) && c.InLeft? && c.other.Node? && c.other.color == Black && w == c.other.p
      requires BlackRoot(c.other.right) && !BlackRoot(c.other.left)
      modifies this`root, nodes
      ensures Owing(x, FarSide(c), t) && Inorder(Plug(FarSide(c), t)) == Inorder(Plug(c, t))
    {
      hide St, Focused, Deficient;
      AroundHole(x, c, t);
      FarSideOk(c, t);
      FarSideEntries(c, t);
      PaintNephew(w.left, true, c, t);
      ghost var w1 := c.other.(left := c.other.left.(color := Black));
      PaintSibling(w, Red, WithOther(c, w1), t);
      ghost var w2 := w1.(color := Red);
      ToSibling(St(), WithOther(c, w2), t);
      TurnRight(w, Aside(c, t), w2);
      FromSibling(St(), c, t, Righted(w2));
    }

    /** Case 3, on the right. */
    method ToFarLeft(x: RbNode, w: RbNode, ghost c: Ctx<RbNode>, ghost t: Tree<RbNode>)
      requires Owing(x, c, t) && BlackRoot(t) && c.InRight? && c.other.Node? && c.other.color == Black && w == c.other.p
      requires BlackRoot(c.other.left) && !BlackRoot(c.other.right)
      modifies this`root, nodes
      ensures Owing(x, FarSide(c), t) && Inorder(Plug(FarSide(c), t)) == Inorder(Plug(c, t))
    {
      hide St, Focused, Deficient;
      AroundHole(x, c, t);
      FarSideOk(c, t);
      FarSideEntries(c, t);
      PaintNephew(w.right, false, c, t);
      ghost var w1 := c.other.(right := c.other.right.(color := Black));
      PaintSibling(w, Red, WithOther(c, w1), t);
      ghost var w2 := w1.(color := Red);
      ToSibling(St(), WithOther(c, w2), t);
      TurnLeft(w, Aside(c, t), w2);
      FromSibling(St(), c, t, Lefted(w2));
    }

    /** Case 4, on the left. */
    method PayFromRight(x: RbNode, w: RbNode, ghost c: Ctx<RbNode>, ghost t: Tree<RbNode>)
      requires Owing(x, c, t) && BlackRoot(t) && c.InLeft? && c.other.Node? && c.other.color == Black && w == c.other.p
      requires !BlackRoot(c.other.right)
      modifies this`root, nodes
      ensures Focused(St(), c.up, Paid(c, t)) && Fitted(c.up, Paid(c, t))
              && Inorder(Plug(c.up, Paid(c, t))) == Inorder(Plug(c, t))
    {
      hide St, Focused, Deficient, Fitted;
      AroundHole(x, c, t);
      PaidOk(c, t);
      PaidEntries(c, t);
      PaintSibling(w, x.parent.color, c, t);
      ghost var c1 := WithOther(c, c.other.(color := c.color));
      PaintParent(x.parent, Black, c1, t);
      ghost var c2 := WithColor(c1, Black);
      PaintNephew(w.right, false, c2, t);
      ghost var c3 := WithOther(c2, c2.other.(right := c2.other.right.(color := Black)));
      Up(St(), c3, t);
      TurnLeft(x.parent, c.up, Lift(c3, t));
    }

    /** Case 4, on the right. */
    method PayFromLeft(x: RbNode, w: RbNode, ghost c: Ctx<RbNode>, ghost t: Tree<RbNode>)
      requires Owing(x, c, t) && BlackRoot(t) && c.InRight? && c.other.Node? && c.other.color == Black && w == c.other.p
      requires !BlackRoot(c.other.left)
      modifies this`root, nodes
      ensures Focused(St(), c.up, Paid(c, t)) && Fitted(c.up, Paid(c, t))
              && Inorder(Plug(c.up, Paid(c, t))) == Inorder(Plug(c, t))
    {
      hide St, Focused, Deficient, Fitted;
      AroundHole(x, c, t);
      PaidOk(c, t);
      PaidEntries(c, t);
      PaintSibling(w, x.parent.color, c, t);
      ghost var c1 := WithOther(c, c.other.(color := c.color));
      PaintParent(x.parent, Black, c1, t);
      ghost var c2 := WithColor(c1, Black);
      PaintNephew(w.left, true, c2, t);
      ghost var c3 := WithOther(c2, c2.other.(left := c2.other.left.(color := Black)));
      Up(St(), c3, t);
      TurnRight(x.parent, c.up, Lift(c3, t));
    }

    /** The repair has been paid for; what is left is to blacken the root. */
    ghost predicate Clear(x: RbNode, c: Ctx<RbNode>, t: Tree<RbNode>)
      reads this`root, this`nil, this`nodes, nodes
    {
      x == root && Focused(St(), c, t) && Fitted(c, t) && t.Node?
    }

    /** One round of the repair at a left child. */
    method RepairLeft(x: RbNode, ghost c: Ctx<RbNode>, ghost t: Tree<RbNode>)
      returns (x': RbNode, ghost c': Ctx<RbNode>, ghost t': Tree<RbNode>)
      requires Owing(x, c, t) && BlackRoot(t) && c.InLeft?
      modifies this`root, nodes
      ensures Inorder(Plug(c', t')) == Inorder(Plug(c, t))
      ensures (Owing(x', c', t') && (Depth(c') < Depth(c) || !BlackRoot(t'))) || Clear(x', c', t')
    {
      hide Focused, Deficient, Fitted, Inorder, Plug;
      AroundHole(x, c, t);
      ghost var sh := SiblingExists(c, t);
      c', t' := c, t;
      var w := x.parent.right;
      if w.color == Red {
        RedSiblingOk(c, t);
        RedRight(x, w, c, t);
        c' := RedSibling(c);
        AroundHole(x, c', t);
        w := x.parent.right;
      }
      DepthUp(c');
      if w.left.color == Black && w.right.color == Black {
        x' := MoveUp(x, w, c', t);
        DepthUp(c);
        c', t' := c'.up, MovedUp(c', t);
      } else {
        if w.right.color == Black {
          FarSideOk(c', t);
          ToFarRight(x, w, c', t);
          c' := FarSide(c');
          AroundHole(x, c', t);
          w := x.parent.right;
        }
        PayFromRight(x, w, c', t);
        c', t' := c'.up, Paid(c', t);
        x' := root;
      }
    }

    /** One round of the repair at a right child. */
    method RepairRight(x: RbNode, ghost c: Ctx<RbNode>, ghost t: Tree<RbNode>)
      returns (x': RbNode, ghost c': Ctx<RbNode>, ghost t': Tree<RbNode>)
      requires Owing(x, c, t) && BlackRoot(t) && c.InRight?
      modifies this`root, nodes
      ensures Inorder(Plug(c', t')) == Inorder(Plug(c, t))
      ensures (Owing(x', c', t') && (Depth(c') < Depth(c) || !BlackRoot(t'))) || Clear(x', c', t')
    {
      hide Focused, Deficient, Fitted, Inorder, Plug;
      AroundHole(x, c, t);
      ghost var sh := SiblingExists(c, t);
      c', t' := c, t;
      var w := x.parent.left;
      if w.color == Red {
        RedSiblingOk(c, t);
        RedLeft(x, w, c, t);
        c' := RedSibling(c);
        AroundHole(x, c', t);
        w := x.parent.left;
      }
      DepthUp(c');
      if w.left.color == Black && w.right.color == Black {
        x' := MoveUp(x, w, c', t);
        DepthUp(c);
        c', t' := c'.up, MovedUp(c', t);
      } else {
        if w.left.color == Black {
          FarSideOk(c', t);
          ToFarLeft(x, w, c', t);
          c' := FarSide(c');
          AroundHole(x, c', t);
          w := x.parent.left;
        }
        PayFromLeft(x, w, c', t);
        c', t' := c'.up, Paid(c', t);
        x' := root;
      }
    }

    /** `rbtree_delete_fixup`. */
    method DeleteFixup(x0: RbNode, ghost c0: Ctx<RbNode>, ghost t0: Tree<RbNode>) returns (ghost r: Tree<RbNode>)
      requires Owing(x0, c0, t0)
      modifies this`root, nodes
      ensures Focused(St(), Top, r) && RbTree(r) && Inorder(r) == Inorder(Plug(c0, t0))
    {
      hide Focused, Deficient, Fitted, RbTree, Inorder, Plug;
      var x := x0;
      ghost var c, t := c0, t0;
      ghost var entries := Inorder(Plug(c, t));
      while x != root && x.color == Black
        invariant Owing(x, c, t) || Clear(x, c, t)
        invariant Inorder(Plug(c, t)) == entries
        decreases if x == root || !BlackRoot(t) then 0 else 1 + Depth(c)
      {
        AroundHole(x, c, t);
        ghost var sh := SiblingExists(c, t);
        if x == x.parent.left {
          x, c, t := RepairLeft(x, c, t);
        } else {
          x, c, t := RepairRight(x, c, t);
        }
      }
      r := SettleUp(x, c, t);
    }

    /** The last assignment of `rbtree_delete_fixup`. */
    method SettleUp(x: RbNode, ghost c: Ctx<RbNode>, ghost t: Tree<RbNode>) returns (ghost r: Tree<RbNode>)
      requires Clear(x, c, t) || (Owing(x, c, t) && (x == root || x.color == Red))
      modifies nodes
      ensures Focused(St(), Top, r) && RbTree(r) && Inorder(r) == Inorder(Plug(c, t))
    {
      ghost var clear := Clear(x, c, t);
      if clear {
        FittedTree(c, t);
        Whole(St(), c, t);
        PlugNode(c, t);
        FocusHeap(Top, Plug(c, t));
        Coloured(St(), Top, Plug(c, t), Black);
        r := Blacken(Plug(c, t));
      } else {
        AroundHole(x, c, t);
        DeficitPaid(c, t);
        if t.Node? {
          Coloured(St(), c, t, Black);
        } else {
          assert SetColor(St(), x, Black) == St();
        }
        BlackenEntries(c, t);
        FittedRest(c, Blacken(t));
        r := Plug(c, Blacken(t));
      }
      PutColor(x, Black);
      if !clear {
        Whole(St(), c, Blacken(t));
      }
    }

    // ----- deletion -----

    /** `rbtree_mini`: the first node of a subtree.  A path through `z` stays one. */
    method Minimum(x: RbNode, ghost c: Ctx<RbNode>, ghost t: Tree<RbNode>, ghost z: RbNode)
      returns (y: RbNode, ghost c': Ctx<RbNode>, ghost t': Tree<RbNode>)
      requires Focused(St(), c, t) && t.Node? && t.p == x
      ensures Focused(St(), c', t') && Plug(c', t') == Plug(c, t)
      ensures t'.Node? && t'.p == y && t'.left.Leaf? && Pre(c') == Pre(c)
      ensures MinPath(c, z) ==> MinPath(c', z) && EntryAt(c', z) == EntryAt(c, z)
    {
      y := x;
      c', t' := c, t;
      FocusHeap(c', t');
      while y.left != nil
        invariant Focused(St(), c', t') && Plug(c', t') == Plug(c, t) && t'.Node? && t'.p == y && Pre(c') == Pre(c)
        invariant MinPath(c, z) ==> MinPath(c', z) && EntryAt(c', z) == EntryAt(c, z)
        decreases t'
      {
        FocusHeap(c', t');
        DownLeft(St(), c', t');
        c', t' := InLeft(c', t'.p, t'.color, t'.entry, t'.right), t'.left;
        y := y.left;
        FocusHeap(c', t');
      }
      FocusHeap(c', t');
    }

    /** `rbtree_successor`: the node with the next entry, or the sentinel after the last. */
    method Successor(x: RbNode, ghost c: Ctx<RbNode>, ghost t: Tree<RbNode>)
      returns (y: RbNode, ghost c': Ctx<RbNode>, ghost t': Tree<RbNode>)
      requires Focused(St(), c, t) && t.Node? && t.p == x
      ensures y == nil ==> Inorder(t.right) + Post(c) == []
      ensures y != nil ==> Focused(St(), c', t') && Plug(c', t') == Plug(c, t) && t'.Node? && t'.p == y
      ensures y != nil ==> Pre(c') + Inorder(t'.left) == Pre(c) + (Inorder(t.left) + [t.entry])
      ensures t.right.Node? ==> y != nil && t'.left.Leaf? && MinPath(c', x) && EntryAt(c', x) == t.entry
    {
      FocusHeap(c, t);
      if x.right != nil {
        DownRight(St(), c, t);
        y, c', t' := Minimum(x.right, InRight(c, t.p, t.color, t.entry, t.left), t.right, x);
        FocusHeap(c', t');
        return;
      }
      y, c', t' := Climb(x, c, t);
      assert [] + Post(c) == Post(c);
    }

    /** The second loop of `rbtree_successor`: up until a left child is left behind. */
    method Climb(x0: RbNode, ghost c: Ctx<RbNode>, ghost t: Tree<RbNode>)
      returns (y: RbNode, ghost c': Ctx<RbNode>, ghost t': Tree<RbNode>)
      requires Focused(St(), c, t) && t.Node? && t.p == x0 && t.right.Leaf?
      ensures y == nil ==> Post(c) == []
      ensures y != nil ==> Focused(St(), c', t') && Plug(c', t') == Plug(c, t) && t'.Node? && t'.p == y
      ensures y != nil ==> Pre(c') + Inorder(t'.left) == Pre(c) + (Inorder(t.left) + [t.entry])
    {
      var x := x0;
      y := x.parent;
      c', t' := c, t;
      FocusHeap(c, t);
      ghost var before := Pre(c) + (Inorder(t.left) + [t.entry]);
      Seqs.Assoc(Pre(c), Inorder(t.left), [t.entry]);
      assert Inorder(t) == Inorder(t.left) + [t.entry];
      while y != nil && x == y.right
        invariant Focused(St(), c', t') && Plug(c', t') == Plug(c, t) && t'.Node? && t'.p == x
        invariant y == ParentOf(c', nil) && Post(c') == Post(c) && Pre(c') + Inorder(t') == before
        decreases c'
      {
        WhichChild(c', t');
        Up(St(), c', t');
        Seqs.Assoc(Pre(c'.up), Inorder(c'.other) + [c'.entry], Inorder(t'));
        x := y;
        c', t' := c'.up, Lift(c', t');
        FocusHeap(c', t');
        y := y.parent;
      }
      WhichChild(c', t');
      if y != nil {
        Up(St(), c', t');
        c', t' := c'.up, Lift(c', t');
      }
    }

    lemma WhichChild(c: Ctx<RbNode>, t: Tree<RbNode>)
      requires Focused(St(), c, t) && t.Node?
      ensures ParentOf(c, nil) == nil <==> c.Top?
      ensures !c.Top? ==> c.p in nodes && (t.p == c.p.right <==> c.InRight?)
    {
      if c.InLeft? && c.other.Node? {
        assert c.other.p in Ptrs(c.other) && c.other.p in CtxPtrs(c) && t.p in Ptrs(t);
      }
      if c.InLeft? {
        assert t.p != nil;
      }
    }

    /** `y`, which has at most one child, leaves the tree; `x` takes its place. */
    method SpliceOut(y: RbNode, x: RbNode, ghost c: Ctx<RbNode>, ghost t: Tree<RbNode>)
      requires Focused(St(), c, t) && OneChild(t) && t.p == y && x == RootOf(OnlyChild(t), nil)
      modifies this`root, nodes
      ensures Focused(St(), c, OnlyChild(t)) && y in nodes && y.Fields() == old(y.Fields())
      ensures nil in nodes && (OnlyChild(t).Leaf? ==> nil.parent == ParentOf(c, nil))
    {
      Spliced(St(), c, t);
      FocusHeap(c, t);
      PutParent(x, y.parent);
      ReplaceChild(y, x);
    }

    /** Exchange the entries of `z`, on the path above the focus, and `y`, no longer linked in. */
    method ExchangeEntries(z: RbNode, y: RbNode, ghost c: Ctx<RbNode>, ghost t: Tree<RbNode>)
      requires Focused(St(), c, t) && MinPath(c, z) && y in nodes && y != nil && y !in Ptrs(t) && y !in CtxPtrs(c)
      modifies z`key, z`value, y`key, y`value
      ensures Focused(St(), Restock(c, z, Entry(old(y.key), old(y.value))), t)
    {
      ghost var e := Entry(y.key, y.value);
      RestockShape(c, z, e);
      CtxInStore(St().m, c, RootOf(t, nil), nil);
      Restocked(St(), c, t, z, e);
      var key, value := z.key, z.value;
      Detached(SetEntry(St(), z, e), Restock(c, z, e), t, y, Entry(key, value));
      hide Focused, MinPath;
      PutEntry(z, y.key, y.value);
      PutEntry(y, key, value);
    }

    method PutEntry(n: RbNode, key: string, value: string)
      requires n in nodes
      modifies n`key, n`value
      ensures St() == SetEntry(old(St()), n, Entry(key, value))
    {
      n.key := key;
      n.value := value;
    }

    /** The only child of `y`, or the sentinel. */
    method ChildOf(y: RbNode, ghost c: Ctx<RbNode>, ghost t: Tree<RbNode>) returns (x: RbNode)
      requires Focused(St(), c, t) && OneChild(t) && t.p == y
      ensures x == RootOf(OnlyChild(t), nil)
    {
      FocusHeap(c, t);
      x := nil;
      if y.left != nil {
        x := y.left;
      } else if y.right != nil {
        x := y.right;
      }
    }

    /** What the removal will leave: `c` and `t` locate the node to unlink, `z` the one to vanish. */
    lemma RemovalPlan(z: RbNode, c: Ctx<RbNode>, t: Tree<RbNode>, key: string, c': Ctx<RbNode>)
      requires OneChild(t) && RbTree(Plug(c, t)) && Sorted(Inorder(Plug(c, t)))
      requires if t.p == z then c' == c && t.entry.key == key
               else t.left.Leaf? && MinPath(c, z) && EntryAt(c, z).key == key && c' == Restock(c, z, t.entry)
      ensures var es := Inorder(Plug(c', OnlyChild(t)));
              Sorted(es) && AsMap(es) == AsMap(Inorder(Plug(c, t))) - {key}
      ensures t.color == Red ==> RbTree(Plug(c', OnlyChild(t)))
      ensures t.color == Black ==> Deficient(c', OnlyChild(t))
      ensures ParentOf(c', nil) == ParentOf(c, nil)
    {
      SpliceCase(c, t);
      if t.p == z {
        SplicedEntries(c, t);
      } else {
        SuccessorEntries(c, t, z);
        RestockCase(c, OnlyChild(t), z, t.entry);
        RestockShape(c, z, t.entry);
      }
    }

    lemma Apart(z: RbNode, c: Ctx<RbNode>, t: Tree<RbNode>)
      requires Focused(St(), c, t) && OneChild(t)
      ensures t.p !in Ptrs(OnlyChild(t)) && t.p !in CtxPtrs(c) && t.p in nodes && t.p != nil
      ensures MinPath(c, z) ==> t.p != z && z in nodes
    {
      assert t.p in Ptrs(t);
      if MinPath(c, z) {
        RestockShape(c, z, t.entry);
        CtxInStore(St().m, c, RootOf(t, nil), nil);
      }
    }

    /** The node to unlink: `z` itself if it has at most one child, otherwise its successor. */
    method Unlinkable(z: RbNode, ghost c: Ctx<RbNode>, ghost t: Tree<RbNode>)
      returns (y: RbNode, ghost cy: Ctx<RbNode>, ghost ty: Tree<RbNode>)
      requires Focused(St(), c, t) && t.Node? && t.p == z
      ensures Focused(St(), cy, ty) && Plug(cy, ty) == Plug(c, t) && OneChild(ty) && ty.p == y
      ensures if y == z then cy == c && ty == t else ty.left.Leaf? && MinPath(cy, z) && EntryAt(cy, z) == t.entry
    {
      hide Focused, MinPath, EntryAt, Inorder, Plug;
      FocusHeap(c, t);
      y, cy, ty := z, c, t;
      if z.left != nil && z.right != nil {
        y, cy, ty := Successor(z, c, t);
        Apart(z, cy, ty);
      }
    }

    /** `y` leaves the tree, its entry moved to `z` if that is another node. */
    method Extract(z: RbNode, y: RbNode, ghost c: Ctx<RbNode>, ghost t: Tree<RbNode>) returns (x: RbNode)
      requires Focused(St(), c, t) && OneChild(t) && t.p == y && (y != z ==> MinPath(c, z))
      modifies this`root, nodes
      ensures var c' := if y == z then c else Restock(c, z, t.entry);
              Focused(St(), c', OnlyChild(t)) && (OnlyChild(t).Leaf? ==> nil.parent == ParentOf(c, nil))
      ensures nil in nodes && x == RootOf(OnlyChild(t), nil) && y in nodes && y.color == t.color
    {
      hide Focused, MinPath, Restock, Ptrs, CtxPtrs, St;
      FocusHeap(c, t);
      x := ChildOf(y, c, t);
      Apart(z, c, t);
      SpliceOut(y, x, c, t);
      if y != z {
        ExchangeEntries(z, y, c, OnlyChild(t));
      }
    }

    /** The colours put right after a removal. */
    method Rebalance(x: RbNode, color: Color, ghost c: Ctx<RbNode>, ghost t: Tree<RbNode>)
      requires Focused(St(), c, t) && nil in nodes && x == RootOf(t, nil)
               && (t.Leaf? ==> nil.parent == ParentOf(c, nil))
      requires Sorted(Inorder(Plug(c, t)))
      requires if color == Black then Deficient(c, t) else RbTree(Plug(c, t))
      modifies this`root, this`tree, nodes
      ensures Valid() && Map() == AsMap(Inorder(Plug(c, t)))
    {
      hide Focused, RbTree, Sorted, Deficient, Inorder, Plug, AsMap;
      if color == Black {
        tree := DeleteFixup(x, c, t);
      } else {
        Whole(St(), c, t);
        tree := Plug(c, t);
      }
    }

    /** `rbtree_delete`: unlink `z` itself, or its successor after exchanging the entries. */
    method Delete(z: RbNode, ghost c: Ctx<RbNode>, ghost t: Tree<RbNode>) returns (y: RbNode)
      requires Valid() && Focused(St(), c, t) && Plug(c, t) == tree && t.Node? && t.p == z
      modifies this`root, this`tree, nodes
      ensures Valid() && Map() == old(Map()) - {t.entry.key}
    {
      hide Focused, RbTree, Sorted, Deficient, MinPath, Inorder, Plug, AsMap, Restock, EntryAt;
      ghost var cy, ty;
      y, cy, ty := Unlinkable(z, c, t);
      ghost var c' := if y == z then cy else Restock(cy, z, ty.entry);
      RemovalPlan(z, cy, ty, t.entry.key, c');
      var x := Extract(z, y, cy, ty);
      Rebalance(x, y.color, c', OnlyChild(ty));
    }

    /** `kvs_rbtree_del`. */
    method Del(key: string) returns (r: int)
      requires Valid()
      modifies this`root, this`tree, nodes
      ensures Valid()
      ensures r == if key in old(Map()) then 0 else 1
      ensures Map() == old(Map()) - {key}
    {
      hide Focused, RbTree, Sorted, AsMap;
      var node;
      ghost var c, t;
      node, c, t := Search(key);
      SearchEnds(c, t, key);
      FocusHeap(c, t);
      if node == nil {
        return 1;
      }
      var cur := Delete(node, c, t);
      return 0;
    }

    /** One round of the loop of `kvs_rbtree_destroy`: delete the first node. */
    method DeleteFirst()
      requires Valid() && root != nil
      modifies this`root, this`tree, nodes
      ensures Valid() && |Map()| < |old(Map())|
    {
      hide RbTree, Sorted, AsMap, Inorder, Focused, Brackets;
      ghost var c, t;
      var mini;
      RootHeap();
      mini, c, t := Minimum(root, Top, tree, nil);
      PresentKey(c, t);
      var cur := Delete(mini, c, t);
    }

    lemma RootHeap()
      requires Valid()
      ensures root == RootOf(tree, nil) && (root == nil <==> tree.Leaf?)
    {
      FocusHeap(Top, tree);
    }

    lemma PresentKey(c: Ctx<RbNode>, t: Tree<RbNode>)
      requires t.Node? && Sorted(Inorder(Plug(c, t)))
      ensures t.entry.key in AsMap(Inorder(Plug(c, t)))
    {
      hide Sorted, AsMap, Inorder;
      SearchEnds(c, t, t.entry.key);
    }

    /** `kvs_rbtree_destroy`, up to the freeing of nodes: delete the first node until none is left. */
    method Destroy()
      requires Valid()
      modifies this`root, this`tree, nodes
      ensures Valid() && root == nil && Map() == map[]
    {
      hide Valid;
      while root != nil
        invariant Valid()
        decreases |Map()|
      {
        DeleteFirst();
      }
      RootHeap();
    }
  }
}
