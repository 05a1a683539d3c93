/** The top-down splay tree: splaying, and the set operations built on it. */
module SplayTree {
  import opened Seqs
  import opened SplayShapes
  import opened SplaySteps

  ghost function MemOf(ns: set<SplayNode>): Mem
    reads ns
  {
    map n | n in ns :: Links(n.left, n.right)
  }

  ghost predicate Ascending(ps: seq<SplayNode>) {
    forall i, j :: 0 <= i < j < |ps| ==> ps[i].key < ps[j].key
  }

  ghost predicate Below(ps: seq<SplayNode>, key: int) { forall p :: p in ps ==> p.key < key }

  ghost predicate Above(ps: seq<SplayNode>, key: int) { forall p :: p in ps ==> p.key > key }

  lemma AscendingParts(a: seq<SplayNode>, b: seq<SplayNode>)
    ensures Ascending(a + b) <==> Ascending(a) && Ascending(b) && forall p, q :: p in a && q in b ==> p.key < q.key
  {
    var s := a + b;
    if Ascending(s) {
      forall i, j | 0 <= i < j < |a| ensures a[i].key < a[j].key {
        assert s[i] == a[i] && s[j] == a[j];
      }
      forall i, j | 0 <= i < j < |b| ensures b[i].key < b[j].key {
        assert s[|a| + i] == b[i] && s[|a| + j] == b[j];
      }
      forall p, q | p in a && q in b ensures p.key < q.key {
        var i :| 0 <= i < |a| && a[i] == p;
        var j :| 0 <= j < |b| && b[j] == q;
        assert s[i] == p && s[|a| + j] == q;
      }
    }
  }

  lemma AscendingDistinct(ps: seq<SplayNode>)
    requires Ascending(ps)
    ensures Distinct(ps)
  {
  }

  /** In an ascending tree the root divides the rest. */
  lemma RootDivides(t: Tree)
    requires t.Node? && Ascending(Nodes(t))
    ensures Below(Nodes(t.left), t.p.key) && Above(Nodes(t.right), t.p.key)
    ensures Ascending(Nodes(t.left)) && Ascending(Nodes(t.right))
  {
    AscendingParts(Nodes(t.left) + [t.p], Nodes(t.right));
    AscendingParts(Nodes(t.left), [t.p]);
    assert t.p in [t.p] && t.p in Nodes(t.left) + [t.p];
  }

  /** What has been passed lies on its side of the key. */
  ghost predicate Passed(l: Side, r: Side, key: int) { Below(LeftNodes(l), key) && Above(RightNodes(r), key) }

  /** The root is the key's node, or its neighbour: everything else lies on its side of the key. */
  ghost predicate Nearest(t: Tree, key: int) {
    t.Node? && Below(Nodes(t.left), key) && Above(Nodes(t.right), key)
  }

  lemma MidAscending(l: Side, mid: Tree, r: Side)
    requires Ascending(All(l, mid, r))
    ensures Ascending(Nodes(mid))
  {
    AscendingParts(LeftNodes(l) + Nodes(mid), RightNodes(r));
    AscendingParts(LeftNodes(l), Nodes(mid));
  }

  lemma PassRight(l: Side, mid: Tree, r: Side, key: int)
    requires Passed(l, r, key) && mid.Node? && key < mid.p.key && Ascending(Nodes(mid))
    ensures Passed(l, Hung(r, mid.p, mid.right), key)
  {
    RootDivides(mid);
  }

  lemma PassLeft(l: Side, mid: Tree, r: Side, key: int)
    requires Passed(l, r, key) && mid.Node? && key > mid.p.key && Ascending(Nodes(mid))
    ensures Passed(Hung(l, mid.p, mid.left), r, key)
  {
    RootDivides(mid);
  }

  /** Where the loop may stop: at the key, or where the key's side of the root is empty. */
  lemma Stops(l: Side, mid: Tree, r: Side, key: int)
    requires Passed(l, r, key) && mid.Node? && Ascending(Nodes(mid))
    requires key < mid.p.key ==> mid.left.Leaf?
    requires key > mid.p.key ==> mid.right.Leaf?
    ensures Below(Nodes(mid.left), key) && Above(Nodes(mid.right), key)
  {
    RootDivides(mid);
  }

  lemma AssembledNearest(l: Side, mid: Tree, r: Side, key: int)
    requires Passed(l, r, key) && mid.Node? && Below(Nodes(mid.left), key) && Above(Nodes(mid.right), key)
    ensures Nearest(Assembled(l, mid, r), key)
  {
    JoinNodes(l, mid.left);
    JoinNodesRight(r, mid.right);
  }

  lemma MidShrinks(t: Tree)
    requires t.Node?
    ensures |Nodes(t.left)| < |Nodes(t)| && |Nodes(t.right)| < |Nodes(t)|
  {
  }

  ghost predicate AllIn(ns: set<SplayNode>, ps: seq<SplayNode>) { forall n :: n in ns ==> n in ps }

  ghost predicate HasKey(ps: seq<SplayNode>, key: int) { exists p :: p in ps && p.key == key }

  /** An ascending sequence with one more element. */
  ghost function Inserted(ps: seq<SplayNode>, x: SplayNode): seq<SplayNode> {
    if ps == [] || x.key < ps[0].key then [x] + ps else [ps[0]] + Inserted(ps[1..], x)
  }

  ghost function Without(ps: seq<SplayNode>, key: int): seq<SplayNode> {
    if ps == [] then [] else (if ps[0].key == key then [] else [ps[0]]) + Without(ps[1..], key)
  }

  lemma {:induction false} InsertedBetween(a: seq<SplayNode>, x: SplayNode, b: seq<SplayNode>)
    requires Below(a, x.key) && Above(b, x.key)
    ensures Inserted(a + b, x) == a + [x] + b
  {
    if a == [] {
      assert a + b == b && a + [x] + b == [x] + b;
      assert b != [] ==> b[0] in b;
    } else {
      assert a[0] in a;
      InsertedBetween(a[1..], x, b);
      assert (a + b)[1..] == a[1..] + b;
      assert [a[0]] + (a[1..] + [x] + b) == a + [x] + b;
    }
  }

  lemma {:induction false} InsertedHas(ps: seq<SplayNode>, x: SplayNode)
    ensures forall p :: p in ps || p == x ==> p in Inserted(ps, x)
    ensures forall ns :: AllIn(ns, ps) ==> AllIn(ns + {x}, Inserted(ps, x))
  {
    if ps != [] && x.key >= ps[0].key {
      InsertedHas(ps[1..], x);
    }
  }

  lemma NothingToRemove(key: int)
    ensures !HasKey([], key) && Without([], key) == []
  {
  }

  lemma SidesWithout(t: Tree)
    requires t.Node? && Ascending(Nodes(t))
    ensures var rest := Nodes(t.left) + Nodes(t.right);
            t.p !in rest && forall ns :: AllIn(ns, Nodes(t)) ==> AllIn(ns - {t.p}, rest)
    ensures t.left.Leaf? ==> Nodes(t.left) + Nodes(t.right) == Nodes(t.right)
  {
    RootDivides(t);
  }

  lemma {:induction false} WithoutNothing(ps: seq<SplayNode>, key: int)
    requires !HasKey(ps, key)
    ensures Without(ps, key) == ps
  {
    if ps != [] {
      assert ps[0] in ps;
      WithoutNothing(ps[1..], key);
    }
  }

  lemma {:induction false} WithoutParts(a: seq<SplayNode>, b: seq<SplayNode>, key: int)
    ensures Without(a + b, key) == Without(a, key) + Without(b, key)
  {
    if a == [] {
      assert a + b == b;
    } else {
      WithoutParts(a[1..], b, key);
      assert (a + b)[1..] == a[1..] + b && (a + b)[0] == a[0];
      Assoc(if a[0].key == key then [] else [a[0]], Without(a[1..], key), Without(b, key));
    }
  }

  lemma InParts(t: Tree, p: SplayNode)
    requires t.Node?
    ensures p in Nodes(t) <==> p in Nodes(t.left) || p == t.p || p in Nodes(t.right)
  {
  }

  /** A splayed tree has the key exactly when its root has it. */
  lemma NearestDecides(t: Tree, key: int)
    requires Nearest(t, key)
    ensures HasKey(Nodes(t), key) <==> t.p.key == key
    ensures t.p in Nodes(t)
  {
    if HasKey(Nodes(t), key) {
      var p :| p in Nodes(t) && p.key == key;
      InParts(t, p);
    }
  }

  lemma WithoutOne(p: SplayNode)
    ensures Without([p], p.key) == []
  {
    assert [p][1..] == [];
  }

  lemma WithoutAround(a: seq<SplayNode>, p: SplayNode, b: seq<SplayNode>)
    requires Below(a, p.key) && Above(b, p.key)
    ensures Without(a + [p] + b, p.key) == a + b
  {
    hide Without;
    WithoutParts(a + [p], b, p.key);
    WithoutParts(a, [p], p.key);
    WithoutNothing(a, p.key);
    WithoutNothing(b, p.key);
    WithoutOne(p);
    assert a + [] == a;
  }

  lemma WithoutRoot(t: Tree, key: int)
    requires Nearest(t, key)
    ensures Without(Nodes(t), key) == if t.p.key == key then Nodes(t.left) + Nodes(t.right) else Nodes(t)
  {
    NearestDecides(t, key);
    if t.p.key == key {
      WithoutAround(Nodes(t.left), t.p, Nodes(t.right));
    } else {
      WithoutNothing(Nodes(t), key);
    }
  }

  lemma FirstPlanted(m: Mem, elm: SplayNode)
    requires elm in m && m[elm] == Links(null, null)
    ensures var t := Node(Leaf, elm, Leaf); Holds(m, t) && Nodes(t) == Inserted([], elm) && Ascending(Nodes(t))
    ensures !HasKey([], elm.key)
  {
    var t := Node(Leaf, elm, Leaf);
    assert Nodes(t) == [elm];
  }

  /** Writing to the root and to a new node leaves what is below the root alone. */
  lemma SubtreesKept(m: Mem, m': Mem, t: Tree, elm: SplayNode)
    requires Holds(m, t) && t.Node? && Ascending(Nodes(t)) && elm !in m
    requires forall p :: p in m && p != t.p && p != elm ==> p in m' && m'[p] == m[p]
    ensures Holds(m', t.left) && Holds(m', t.right) && t.p != elm
  {
    NodesIn(m, t);
    AscendingDistinct(Nodes(t));
    RootApart(t);
    PartsOf(t);
    HoldsFrame(m, m', t.left);
    HoldsFrame(m, m', t.right);
  }

  lemma HoldsNode(m: Mem, t: Tree)
    requires t.Node? && t.p in m && m[t.p] == Links(RootOf(t.left), RootOf(t.right))
    requires Holds(m, t.left) && Holds(m, t.right)
    ensures Holds(m, t)
  {
  }

  lemma OrderLow(a: seq<SplayNode>, x: SplayNode, p: SplayNode, b: seq<SplayNode>)
    requires Ascending(a + [p] + b) && Below(a, x.key) && Above(b, x.key) && x.key < p.key
    ensures Inserted(a + [p] + b, x) == a + [x] + ([p] + b) && Ascending(a + [x] + ([p] + b))
  {
    Assoc(a, [p], b);
    InsertedBetween(a, x, [p] + b);
    InsertedAscending(a, x, [p] + b);
  }

  lemma OrderHigh(a: seq<SplayNode>, x: SplayNode, p: SplayNode, b: seq<SplayNode>)
    requires Ascending(a + [p] + b) && Below(a, x.key) && Above(b, x.key) && x.key > p.key
    ensures Inserted(a + [p] + b, x) == a + [p] + [x] + b && Ascending(a + [p] + [x] + b)
  {
    InsertedBetween(a + [p], x, b);
    InsertedAscending(a + [p], x, b);
  }

  /** The new element takes the place of the root, which goes below it to the right. */
  lemma PlantedLow(m: Mem, m': Mem, t: Tree, elm: SplayNode)
    requires Holds(m, t) && Nearest(t, elm.key) && Ascending(Nodes(t)) && elm !in m && elm.key < t.p.key && t.p in m
    requires m' == m[t.p := Links(null, RootOf(t.right))][elm := Links(RootOf(t.left), t.p)]
    ensures var t' := Node(t.left, elm, Node(Leaf, t.p, t.right));
            Holds(m', t') && Nodes(t') == Inserted(Nodes(t), elm) && Ascending(Nodes(t'))
  {
    hide Ascending, Inserted, Below, Above;
    SubtreesKept(m, m', t, elm);
    OrderLow(Nodes(t.left), elm, t.p, Nodes(t.right));
    var low := Node(Leaf, t.p, t.right);
    assert Nodes(low) == [t.p] + Nodes(t.right);
    HoldsNode(m', low);
    HoldsNode(m', Node(t.left, elm, low));
  }

  lemma PlantedHigh(m: Mem, m': Mem, t: Tree, elm: SplayNode)
    requires Holds(m, t) && Nearest(t, elm.key) && Ascending(Nodes(t)) && elm !in m && elm.key > t.p.key && t.p in m
    requires m' == m[t.p := Links(RootOf(t.left), null)][elm := Links(t.p, RootOf(t.right))]
    ensures var t' := Node(Node(t.left, t.p, Leaf), elm, t.right);
            Holds(m', t') && Nodes(t') == Inserted(Nodes(t), elm) && Ascending(Nodes(t'))
  {
    hide Ascending, Inserted, Below, Above;
    SubtreesKept(m, m', t, elm);
    OrderHigh(Nodes(t.left), elm, t.p, Nodes(t.right));
    var high := Node(t.left, t.p, Leaf);
    assert Nodes(high) == Nodes(t.left) + [t.p];
    HoldsNode(m', high);
    HoldsNode(m', Node(high, elm, t.right));
  }

  lemma InsertedAscending(a: seq<SplayNode>, x: SplayNode, b: seq<SplayNode>)
    requires Ascending(a + b) && Below(a, x.key) && Above(b, x.key)
    ensures Ascending(a + [x] + b)
  {
    AscendingParts(a, b);
    AscendingParts(a + [x], b);
    AscendingParts(a, [x]);
  }

  lemma SidesApart(m: Mem, t: Tree)
    requires Holds(m, t) && t.Node? && Ascending(Nodes(t))
    ensures Ascending(Nodes(t.left)) && Below(Nodes(t.left), t.p.key)
    ensures forall p :: p in Nodes(t.left) ==> p in m && p !in Nodes(t.right)
  {
    RootDivides(t);
    AscendingDistinct(Nodes(t));
    RootApart(t);
    NodesIn(m, t.left);
  }

  lemma NothingRight(t: Tree, key: int)
    requires Nearest(t, key) && Below(Nodes(t), key)
    ensures t.right.Leaf?
  {
    if t.right.Node? {
      PartsOf(t.right);
      PartsOf(t);
    }
  }

  /** The splayed left part with the old right part below its root. */
  lemma Rejoined(m0: Mem, m1: Mem, m: Mem, t: Tree, u: Tree)
    requires Holds(m0, t) && t.Node? && Ascending(Nodes(t)) && u.Node? && u.right.Leaf? && Nodes(u) == Nodes(t.left)
    requires Holds(m1, u) && u.p in m && m[u.p] == Links(RootOf(u.left), RootOf(t.right))
    requires forall p :: p in m1 && p != u.p ==> p in m && m[p] == m1[p]
    requires forall p :: p in m0 && p !in Nodes(t.left) ==> p in m1 && m1[p] == m0[p]
    ensures var t' := Node(u.left, u.p, t.right);
            Holds(m, t') && Nodes(t') == Nodes(t.left) + Nodes(t.right) && Ascending(Nodes(t'))
  {
    RootDivides(t);
    AscendingDistinct(Nodes(t));
    RootApart(t);
    RootApart(u);
    HoldsFrame(m1, m, u.left);
    PartsOf(u);
    HoldsFrame(m0, m, t.right);
    AscendingParts(Nodes(t.left) + [t.p], Nodes(t.right));
    AscendingParts(Nodes(t.left), Nodes(t.right));
    assert Nodes(u) == Nodes(u.left) + [u.p];
  }

  lemma RootParts(m: Mem, t: Tree)
    requires Holds(m, t) && t.Node?
    ensures t.p in m && m[t.p] == Links(RootOf(t.left), RootOf(t.right)) && Holds(m, t.left) && Holds(m, t.right)
  {
  }

  class SplayHead {
    var root: SplayNode?
    /** The nodes linked in, and the tree that the pointers form. */
    ghost var nodes: set<SplayNode>
    ghost var tree: Tree

    /** The pointers form the tree, and its keys ascend. */
    ghost predicate Formed()
      reads this, nodes
    {
      root == RootOf(tree) && Holds(MemOf(nodes), tree) && Ascending(Nodes(tree))
    }

    ghost predicate Valid()
      reads this, nodes
    {
      Formed() && AllIn(nodes, Nodes(tree))
    }

    /** The elements, in order. */
    ghost function Elems(): seq<SplayNode>
      reads this`tree
    {
      Nodes(tree)
    }

    constructor ()
      ensures Valid() && Elems() == [] && nodes == {}
    {
      root := null;
      nodes, tree := {}, Leaf;
    }

    // ----- field assignments -----

    static method PutLeft(p: SplayNode, x: SplayNode?, ghost ns: set<SplayNode>)
      requires p in ns
      modifies p`left
      ensures MemOf(ns) == SetLeft(old(MemOf(ns)), p, x)
    {
      p.left := x;
    }

    static method PutRight(p: SplayNode, x: SplayNode?, ghost ns: set<SplayNode>)
      requires p in ns
      modifies p`right
      ensures MemOf(ns) == SetRight(old(MemOf(ns)), p, x)
    {
      p.right := x;
    }

    // ----- the splay macros -----

    /** `SPLAY_ROTATE_RIGHT`. */
    method RotateRight(tmp: SplayNode, ghost ns: set<SplayNode>, ghost d: SplayNode, ghost l: Side, ghost mid: Tree,
                       ghost r: Side)
      requires Splaying(MemOf(ns), d, l, mid, r) && root == mid.p && mid.left.Node? && tmp == mid.left.p
      modifies this`root, ns
      ensures Splaying(MemOf(ns), d, l, RightTurned(mid), r) && root == tmp
      ensures All(l, RightTurned(mid), r) == All(l, mid, r) && Nodes(RightTurned(mid)) == Nodes(mid)
      ensures root in ns && root.left == RootOf(RightTurned(mid).left) && root.right == RootOf(RightTurned(mid).right)
    {
      hide Holds, LeftHolds, RightHolds, Distinct, Nodes, All;
      TurnsKeepNodes(mid);
      TurnedRight(MemOf(ns), d, l, mid, r);
      PutLeft(root, tmp.right, ns);
      PutRight(tmp, root, ns);
      root := tmp;
      MidLinks(MemOf(ns), d, l, RightTurned(mid), r);
    }

    /** `SPLAY_ROTATE_LEFT`. */
    method RotateLeft(tmp: SplayNode, ghost ns: set<SplayNode>, ghost d: SplayNode, ghost l: Side, ghost mid: Tree,
                      ghost r: Side)
      requires Splaying(MemOf(ns), d, l, mid, r) && root == mid.p && mid.right.Node? && tmp == mid.right.p
      modifies this`root, ns
      ensures Splaying(MemOf(ns), d, l, LeftTurned(mid), r) && root == tmp
      ensures All(l, LeftTurned(mid), r) == All(l, mid, r) && Nodes(LeftTurned(mid)) == Nodes(mid)
      ensures root in ns && root.left == RootOf(LeftTurned(mid).left) && root.right == RootOf(LeftTurned(mid).right)
    {
      hide Holds, LeftHolds, RightHolds, Distinct, Nodes, All;
      TurnsKeepNodes(mid);
      TurnedLeft(MemOf(ns), d, l, mid, r);
      PutRight(root, tmp.left, ns);
      PutLeft(tmp, root, ns);
      root := tmp;
      MidLinks(MemOf(ns), d, l, LeftTurned(mid), r);
    }

    /** `SPLAY_LINKLEFT`: the root goes to the right side. */
    method LinkLeft(tmp: SplayNode, ghost ns: set<SplayNode>, ghost d: SplayNode, ghost l: Side, ghost mid: Tree,
                    ghost r: Side)
      returns (tmp': SplayNode)
      requires Splaying(MemOf(ns), d, l, mid, r) && root == mid.p && mid.left.Node? && tmp == Last(d, r)
      modifies this`root, ns
      ensures var r' := Hung(r, mid.p, mid.right);
              Splaying(MemOf(ns), d, l, mid.left, r') && All(l, mid.left, r') == All(l, mid, r) && tmp' == Last(d, r')
      ensures root == mid.left.p
    {
      PassedRight(MemOf(ns), d, l, mid, r);
      RootIsNot(d, l, mid, r);
      PutLeft(tmp, root, ns);
      tmp' := root;
      root := root.left;
    }

    /** `SPLAY_LINKRIGHT`: the root goes to the left side. */
    method LinkRight(tmp: SplayNode, ghost ns: set<SplayNode>, ghost d: SplayNode, ghost l: Side, ghost mid: Tree,
                     ghost r: Side)
      returns (tmp': SplayNode)
      requires Splaying(MemOf(ns), d, l, mid, r) && root == mid.p && mid.right.Node? && tmp == Last(d, l)
      modifies this`root, ns
      ensures var l' := Hung(l, mid.p, mid.left);
              Splaying(MemOf(ns), d, l', mid.right, r) && All(l', mid.right, r) == All(l, mid, r) && tmp' == Last(d, l')
      ensures root == mid.right.p
    {
      PassedLeft(MemOf(ns), d, l, mid, r);
      RootIsNot(d, l, mid, r);
      PutRight(tmp, root, ns);
      tmp' := root;
      root := root.right;
    }

    /** `SPLAY_ASSEMBLE`. */
    method Assemble(node: SplayNode, left: SplayNode, right: SplayNode, ghost ns: set<SplayNode>, ghost l: Side,
                    ghost mid: Tree, ghost r: Side)
      requires Splaying(MemOf(ns), node, l, mid, r) && root == mid.p && left == Last(node, l) && right == Last(node, r)
      modifies ns
      ensures Holds(MemOf(ns), Assembled(l, mid, r)) && Nodes(Assembled(l, mid, r)) == All(l, mid, r)
    {
      Assembles(MemOf(ns), node, l, mid, r);
      RootIsNot(node, l, mid, r);
      PutRight(left, root.left, ns);
      PutLeft(right, root.right, ns);
      PutLeft(root, node.right, ns);
      PutRight(root, node.left, ns);
    }

    /** `SPLAY`, for the key of `elm`: the nodes stay in order, and the root becomes the key's node or its
        neighbour. */
    method Splay(key: int)
      requires Formed() && root != null
      modifies this`root, this`tree, nodes
      ensures Formed() && Elems() == old(Elems()) && Nearest(tree, key) && tree.Node?
    {
      hide Splaying, Holds, Ascending, Passed, Nearest, Below, Above, All, AllIn, LeftHolds, RightHolds, Nodes, Last;
      var node := new SplayNode(0);
      var left, right := node, node;
      var comp := 0;
      ghost var ns, l, mid, r, ord := nodes + {node}, Bare, tree, Bare, Nodes(tree);
      Begins(MemOf(nodes), MemOf(ns), node, tree, key);
      while root.key != key
        invariant Splaying(MemOf(ns), node, l, mid, r) && root == RootOf(mid) && mid.Node?
        invariant left == Last(node, l) && right == Last(node, r)
        invariant All(l, mid, r) == ord && Passed(l, r, key)
        decreases |Nodes(mid)|
      {
        MidAscending(l, mid, r);
        MidLinks(MemOf(ns), node, l, mid, r);
        if key < root.key {
          var tmp := root.left;
          if tmp == null {
            break;
          }
          if key < tmp.key {
            RotateRight(tmp, ns, node, l, mid, r);
            mid := RightTurned(mid);
            if root.left == null {
              break;
            }
          }
          PassRight(l, mid, r, key);
          MidShrinks(mid);
          right := LinkLeft(right, ns, node, l, mid, r);
          r, mid := Hung(r, mid.p, mid.right), mid.left;
        } else {
          var tmp := root.right;
          if tmp == null {
            break;
          }
          if key > tmp.key {
            RotateLeft(tmp, ns, node, l, mid, r);
            mid := LeftTurned(mid);
            if root.right == null {
              break;
            }
          }
          PassLeft(l, mid, r, key);
          MidShrinks(mid);
          left := LinkRight(left, ns, node, l, mid, r);
          l, mid := Hung(l, mid.p, mid.left), mid.right;
        }
      }
      MidAscending(l, mid, r);
      Stops(l, mid, r, key);
      AssembledNearest(l, mid, r, key);
      Finish(node, left, right, ns, l, mid, r);
    }

    /** `SPLAY_FIND`. */
    method Find(key: int) returns (r: SplayNode?)
      requires Valid()
      modifies this`root, this`tree, nodes
      ensures Valid() && Elems() == old(Elems())
      ensures r == null <==> !HasKey(Elems(), key)
      ensures r != null ==> r in Elems() && r.key == key
    {
      if root == null {
        return null;
      }
      Splay(key);
      NearestDecides(tree, key);
      if key == root.key {
        return root;
      }
      return null;
    }

    lemma Outside(elm: SplayNode)
      requires Valid() && elm !in Elems()
      ensures elm !in nodes
    {}

    /** `SPLAY_INSERT`: the element, unless one with its key is there. */
    method Insert(elm: SplayNode) returns (r: SplayNode?)
      requires Valid() && elm !in Elems()
      modifies this, nodes, elm
      ensures Valid() && nodes <= old(nodes) + {elm}
      ensures r == null <==> !HasKey(old(Elems()), elm.key)
      ensures r == null ==> Elems() == Inserted(old(Elems()), elm)
      ensures r != null ==> Elems() == old(Elems()) && r in Elems() && r.key == elm.key
    {
      hide Holds, Ascending, Nearest, Below, Above, Inserted, HasKey, AllIn;
      Outside(elm);
      ghost var t: Tree := tree;
      if root == null {
        elm.left := null;
        elm.right := null;
        t := Node(Leaf, elm, Leaf);
        FirstPlanted(MemOf(nodes + {elm}), elm);
      } else {
        Splay(elm.key);
        NearestDecides(tree, elm.key);
        if elm.key == root.key {
          return root;
        }
        RootParts(MemOf(nodes), tree);
        t := HangBelow(elm);
      }
      root := elm;
      InsertedHas(Nodes(tree), elm);
      nodes, tree := nodes + {elm}, t;
      return null;
    }

    /** The splayed tree goes below the new element, its root on the side of its key. */
    method HangBelow(elm: SplayNode) returns (ghost t: Tree)
      requires Formed() && Nearest(tree, elm.key) && elm !in nodes && elm.key != tree.p.key
      modifies elm, root
      ensures t.Node? && t.p == elm && Holds(MemOf(nodes + {elm}), t)
      ensures Nodes(t) == Inserted(Nodes(tree), elm) && Ascending(Nodes(t))
    {
      hide Holds, Ascending, Below, Above, Inserted;
      ghost var m := MemOf(nodes);
      RootParts(m, tree);
      if elm.key < root.key {
        elm.left := root.left;
        elm.right := root;
        root.left := null;
        t := Node(tree.left, elm, Node(Leaf, tree.p, tree.right));
        PlantedLow(m, MemOf(nodes + {elm}), tree, elm);
      } else {
        elm.right := root.right;
        elm.left := root;
        root.right := null;
        t := Node(Node(tree.left, tree.p, Leaf), elm, tree.right);
        PlantedHigh(m, MemOf(nodes + {elm}), tree, elm);
      }
    }

    /** `SPLAY_REMOVE`, which returns its argument when it removed the element with that key. */
    method Remove(elm: SplayNode) returns (r: SplayNode?)
      requires Valid()
      modifies this`root, this`tree, this`nodes, nodes
      ensures Valid() && nodes <= old(nodes)
      ensures r == if HasKey(old(Elems()), elm.key) then elm else null
      ensures Elems() == Without(old(Elems()), elm.key)
    {
      hide Holds, Ascending, Nearest, Below, Above, HasKey, AllIn;
      NothingToRemove(elm.key);
      if root == null {
        return null;
      }
      Splay(elm.key);
      NearestDecides(tree, elm.key);
      WithoutRoot(tree, elm.key);
      if elm.key == root.key {
        ghost var gone, t := tree.p, tree;
        RootParts(MemOf(nodes), tree);
        RootDivides(tree);
        SidesWithout(t);
        if root.left == null {
          root := root.right;
          tree := tree.right;
        } else {
          RemoveInner(elm);
        }
        Forget(gone);
        return elm;
      }
      return null;
    }

    /** The removed node is no longer one of the tree's. */
    ghost method Forget(gone: SplayNode)
      requires Formed() && gone !in Nodes(tree) && AllIn(nodes - {gone}, Nodes(tree))
      modifies this`nodes
      ensures Valid() && nodes == old(nodes) - {gone}
    {
      ghost var m := MemOf(nodes);
      NodesIn(m, tree);
      nodes := nodes - {gone};
      HoldsFrame(m, MemOf(nodes), tree);
    }

    /** The two-child case of a removal: the left part is splayed again and takes over the right part. */
    method RemoveInner(elm: SplayNode)
      requires Formed() && tree.Node? && tree.left.Node? && elm.key == tree.p.key
      modifies this`root, this`tree, this`nodes, nodes
      ensures Formed() && nodes == old(nodes) && Elems() == old(Nodes(tree.left) + Nodes(tree.right))
    {
      hide Holds, Ascending, Nodes, AllIn;
      ghost var t, m0 := tree, MemOf(nodes);
      RootParts(m0, t);
      var tmp := root.right;
      SplayLeft(elm.key);
      ghost var u, m1 := tree, MemOf(nodes);
      RootParts(m1, u);
      PutRight(root, tmp, nodes);
      tree := Node(u.left, u.p, t.right);
      Rejoined(m0, m1, MemOf(nodes), t, u);
    }

    /** The left part, splayed for a key above all of it, has nothing right of its root; the rest of the
        tree is untouched. */
    method SplayLeft(key: int)
      requires Formed() && tree.Node? && tree.left.Node? && key == tree.p.key
      modifies this`root, this`tree, this`nodes, nodes
      ensures nodes == old(nodes) && tree.Node? && tree.right.Leaf? && root == tree.p
      ensures Holds(MemOf(nodes), tree) && Nodes(tree) == old(Nodes(tree.left))
      ensures forall p :: p in nodes && p !in old(Nodes(tree.left)) ==> MemOf(nodes)[p] == old(MemOf(nodes))[p]
    {
      hide Holds, Ascending, Nearest, Below, Above, Distinct, Nodes;
      ghost var t, all, m0 := tree, nodes, MemOf(nodes);
      RootParts(m0, t);
      SidesApart(m0, t);
      root := root.left;
      ghost var sub := set n | n in Nodes(t.left);
      assert sub <= all;
      tree, nodes := t.left, sub;
      HoldsFrame(m0, MemOf(sub), t.left);
      Splay(key);
      ghost var u, m1, m2 := tree, MemOf(sub), MemOf(all);
      assert Nodes(u) == Nodes(t.left) && u.Node?;
      NothingRight(u, key);
      assert Agree(m1, m2, Nodes(u));
      HoldsFrame(m1, m2, u);
      assert forall p :: p in all && p !in sub ==> m2[p] == m0[p];
      nodes := all;
    }

    /** `SPLAY_NEXT`: the next element in order. */
    method Next(elm: SplayNode, ghost i: nat) returns (r: SplayNode?)
      requires Valid() && i < |Elems()| && Elems()[i] == elm
      modifies this`root, this`tree, nodes
      ensures Valid() && Elems() == old(Elems())
      ensures r == if i + 1 < |Elems()| then Elems()[i + 1] else null
    {
      hide Holds, Ascending, AllIn, Nearest, Nodes;
      NodesOrLeaf(tree);
      Splay(elm.key);
      AtRoot(tree, elm, i);
      if elm.right == null {
        RightOfRoot();
        return null;
      }
      RightOfRoot();
      r := Leftmost(elm.right, tree.right);
    }

    lemma NodesOrLeaf(t: Tree)
      ensures Nodes(t) != [] <==> t.Node?
    {}

    lemma RightOfRoot()
      requires Formed() && tree.Node?
      ensures root == tree.p && root.right == RootOf(tree.right) && Holds(MemOf(nodes), tree.right)
    {
      RootParts(MemOf(nodes), tree);
    }

    /** Down the left children. */
    method Leftmost(x: SplayNode, ghost t0: Tree) returns (r: SplayNode)
      requires Holds(MemOf(nodes), t0) && t0.Node? && t0.p == x
      ensures Nodes(t0) != [] && r == Nodes(t0)[0]
    {
      hide Holds, Nodes;
      r := x;
      ghost var t := t0;
      LeftmostFirst(MemOf(nodes), t);
      while r.left != null
        invariant t.Node? && r == t.p && Holds(MemOf(nodes), t) && Nodes(t) != [] && Nodes(t)[0] == Nodes(t0)[0]
        decreases t
      {
        RootParts(MemOf(nodes), t);
        LeftmostFirst(MemOf(nodes), t);
        r := r.left;
        t := t.left;
        LeftmostFirst(MemOf(nodes), t);
      }
      RootParts(MemOf(nodes), t);
      LeftmostFirst(MemOf(nodes), t);
    }

    /** `SPLAY_MIN` and `SPLAY_MAX`: a splay towards one end brings the first or the last element up. */
    method MinMax(comp: int) returns (r: SplayNode?)
      requires Valid() && comp != 0
      modifies this`root, this`tree, nodes
      ensures Valid() && Elems() == old(Elems())
      ensures r == if Elems() == [] then null else if comp < 0 then Elems()[0] else Elems()[|Elems()| - 1]
    {
      if root == null {
        return null;
      }
      SplayMinMax(comp);
      r := root;
      EndAtRoot(tree, comp);
    }

    /** `SPLAY_MINMAX`. */
    method SplayMinMax(comp: int)
      requires Valid() && root != null && comp != 0
      modifies this`root, this`tree, nodes
      ensures Valid() && Elems() == old(Elems()) && tree.Node?
      ensures if comp < 0 then tree.left.Leaf? else tree.right.Leaf?
    {
      hide Splaying, Holds, Ascending, Passed, Below, Above, All, AllIn, LeftHolds, RightHolds, Nodes, Last, Assembled;
      var node := new SplayNode(0);
      var left, right := node, node;
      ghost var ns, l, mid, r, ord := nodes + {node}, Bare, tree, Bare, Nodes(tree);
      Begins(MemOf(nodes), MemOf(ns), node, tree, 0);
      while true
        invariant Splaying(MemOf(ns), node, l, mid, r) && root == RootOf(mid) && mid.Node?
        invariant left == Last(node, l) && right == Last(node, r) && All(l, mid, r) == ord
        invariant if comp < 0 then l.Bare? else r.Bare?
        decreases |Nodes(mid)|
      {
        MidLinks(MemOf(ns), node, l, mid, r);
        if comp < 0 {
          var tmp := root.left;
          if tmp == null {
            break;
          }
          RotateRight(tmp, ns, node, l, mid, r);
          mid := RightTurned(mid);
          if root.left == null {
            break;
          }
          MidShrinks(mid);
          right := LinkLeft(right, ns, node, l, mid, r);
          r, mid := Hung(r, mid.p, mid.right), mid.left;
        } else {
          var tmp := root.right;
          if tmp == null {
            break;
          }
          RotateLeft(tmp, ns, node, l, mid, r);
          mid := LeftTurned(mid);
          if root.right == null {
            break;
          }
          MidShrinks(mid);
          left := LinkRight(left, ns, node, l, mid, r);
          l, mid := Hung(l, mid.p, mid.left), mid.right;
        }
      }
      EndBare(l, mid, r);
      Finish(node, left, right, ns, l, mid, r);
    }

    lemma EndBare(l: Side, mid: Tree, r: Side)
      requires mid.Node?
      ensures l.Bare? && mid.left.Leaf? ==> Assembled(l, mid, r).left.Leaf?
      ensures r.Bare? && mid.right.Leaf? ==> Assembled(l, mid, r).right.Leaf?
      ensures Assembled(l, mid, r).Node?
    {}

    /** The three parts made one tree again; the auxiliary node is forgotten. */
    method Finish(node: SplayNode, left: SplayNode, right: SplayNode, ghost ns: set<SplayNode>, ghost l: Side,
                  ghost mid: Tree, ghost r: Side)
      requires Splaying(MemOf(ns), node, l, mid, r) && root == mid.p && left == Last(node, l) && right == Last(node, r)
      requires ns == nodes + {node} && node !in nodes && Ascending(All(l, mid, r))
      modifies this`tree, ns
      ensures Formed() && tree == Assembled(l, mid, r) && Elems() == All(l, mid, r)
    {
      hide Splaying, Holds, Ascending, LeftHolds, RightHolds, JoinLeft, JoinRight;
      AuxApart(MemOf(ns), node, l, mid, r);
      Assemble(node, left, right, ns, l, mid, r);
      tree := Assembled(l, mid, r);
      Ends(MemOf(ns), MemOf(nodes), node, tree);
    }

    /** `SPLAY_FOREACH` visits every element once, in increasing order. */
    method ForEach() returns (visited: seq<SplayNode>)
      requires Valid()
      modifies this`root, this`tree, nodes
      ensures Valid() && Elems() == old(Elems()) && visited == Elems()
    {
      hide Holds, Ascending, AllIn, Nodes;
      visited := [];
      ghost var ord := Elems();
      var x := MinMax(-1);
      while x != null
        invariant Valid() && Elems() == ord && nodes == old(nodes)
        invariant |visited| <= |ord| && visited == ord[..|visited|]
        invariant x == if |visited| < |ord| then ord[|visited|] else null
        decreases |ord| - |visited|
      {
        visited := visited + [x];
        x := Next(x, |visited| - 1);
      }
    }
  }

  lemma InPlace(a: seq<SplayNode>, p: SplayNode, b: seq<SplayNode>, i: nat)
    requires i < |a + [p] + b|
    ensures var x := (a + [p] + b)[i]; if i < |a| then x in a else if i == |a| then x == p else x in b
  {
    if i > |a| {
      assert (a + [p] + b)[i] == b[i - |a| - 1];
    }
  }

  /** The node at position `i`, once splayed, has `i` nodes on its left. */
  lemma AtRoot(t: Tree, elm: SplayNode, i: nat)
    requires Nearest(t, elm.key) && Ascending(Nodes(t)) && i < |Nodes(t)| && Nodes(t)[i] == elm
    ensures t.p == elm && i == |Nodes(t.left)|
    ensures if i + 1 < |Nodes(t)| then t.right.Node? && Nodes(t.right) != [] && Nodes(t)[i + 1] == Nodes(t.right)[0]
            else t.right.Leaf?
  {
    InPlace(Nodes(t.left), t.p, Nodes(t.right), i);
    if t.right.Node? {
      PartsOf(t.right);
    }
  }

  lemma LeftmostFirst(m: Mem, t: Tree)
    requires Holds(m, t) && t.Node?
    ensures Nodes(t) != [] && m[t.p].left == RootOf(t.left)
    ensures Nodes(t)[0] == if t.left.Leaf? then t.p else Nodes(t.left)[0]
  {
    if t.left.Node? {
      PartsOf(t.left);
    }
  }

  lemma EndAtRoot(t: Tree, comp: int)
    requires t.Node? && if comp < 0 then t.left.Leaf? else t.right.Leaf?
    ensures Nodes(t) != [] && t.p == if comp < 0 then Nodes(t)[0] else Nodes(t)[|Nodes(t)| - 1]
  {
  }

  /** The splay starts with the whole tree in the middle. */
  lemma Begins(m: Mem, m': Mem, d: SplayNode, t: Tree, key: int)
    requires Holds(m, t) && t.Node? && Ascending(Nodes(t)) && d !in m && d in m' && forall p :: p in m ==>
               p in m' && m'[p] == m[p]
    ensures d !in Nodes(t) && Last(d, Bare) == d && Splaying(m', d, Bare, t, Bare) && All(Bare, t, Bare) == Nodes(t)
            && Passed(Bare, Bare, key)
  {
    HoldsFrame(m, m', t);
    NodesIn(m, t);
    AscendingDistinct(Nodes(t));
  }

  lemma AuxApart(m: Mem, d: SplayNode, l: Side, mid: Tree, r: Side)
    requires Splaying(m, d, l, mid, r)
    ensures d !in All(l, mid, r) && mid.Node?
  {
  }

  lemma Ends(m: Mem, m': Mem, d: SplayNode, t: Tree)
    requires Holds(m, t) && d !in Nodes(t) && forall p :: p in m && p != d ==> p in m' && m'[p] == m[p]
    ensures Holds(m', t)
  {
    HoldsFrame(m, m', t);
  }

  lemma {:induction false} NodesIn(m: Mem, t: Tree)
    requires Holds(m, t)
    ensures forall p :: p in Nodes(t) ==> p in m
  {
    if t.Node? {
      NodesIn(m, t.left);
      NodesIn(m, t.right);
    }
  }

  lemma MidLinks(m: Mem, d: SplayNode, l: Side, mid: Tree, r: Side)
    requires Splaying(m, d, l, mid, r)
    ensures mid.p in m && m[mid.p] == Links(RootOf(mid.left), RootOf(mid.right))
  {
  }

  lemma RootIsNot(d: SplayNode, l: Side, mid: Tree, r: Side)
    requires mid.Node? && d !in All(l, mid, r) && Distinct(All(l, mid, r))
    ensures mid.p != d && mid.p != Last(d, l) && mid.p != Last(d, r)
  {
    PartsApart(d, l, mid, r);
    PartsOf(mid);
    LastInLeft(d, l);
    LastInRight(d, r);
  }
}
