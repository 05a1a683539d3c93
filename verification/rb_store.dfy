/** Binary trees with parent pointers in a store of records, as the red-black engine keeps them, and
    what rotations and field assignments do to them.  `P` stands for pointers. */
module RbStore {
  import opened Dict

  datatype Color = Red | Black

  /** The fields of one node. */
  datatype Rec<P> = Rec(color: Color, left: P, right: P, parent: P, entry: Entry)

  datatype Store<P> = Store(m: map<P, Rec<P>>, root: P, nil: P)

  /** A tree with the pointer of each node. */
  datatype Tree<P> = Leaf | Node(left: Tree<P>, p: P, color: Color, entry: Entry, right: Tree<P>)

  /** A tree with a hole: the path from the hole up to the root, each step with the subtree on the
      other side. */
  datatype Ctx<P> =
    | Top
    | InLeft(up: Ctx<P>, p: P, color: Color, entry: Entry, other: Tree<P>)
    | InRight(up: Ctx<P>, p: P, color: Color, entry: Entry, other: Tree<P>)

  ghost function WithColor<P>(c: Ctx<P>, color: Color): Ctx<P> {
    match c
    case Top => Top
    case InLeft(up, p, _, entry, other) => InLeft(up, p, color, entry, other)
    case InRight(up, p, _, entry, other) => InRight(up, p, color, entry, other)
  }

  ghost function WithOther<P>(c: Ctx<P>, other: Tree<P>): Ctx<P> {
    match c
    case Top => Top
    case InLeft(up, p, color, entry, _) => InLeft(up, p, color, entry, other)
    case InRight(up, p, color, entry, _) => InRight(up, p, color, entry, other)
  }

  ghost function Plug<P>(c: Ctx<P>, t: Tree<P>): Tree<P> {
    match c
    case Top => t
    case InLeft(up, p, color, entry, other) => Plug(up, Node(t, p, color, entry, other))
    case InRight(up, p, color, entry, other) => Plug(up, Node(other, p, color, entry, t))
  }

  ghost function Ptrs<P>(t: Tree<P>): set<P> {
    if t.Leaf? then {} else Ptrs(t.left) + {t.p} + Ptrs(t.right)
  }

  ghost function CtxPtrs<P>(c: Ctx<P>): set<P> {
    if c.Top? then {} else CtxPtrs(c.up) + {c.p} + Ptrs(c.other)
  }

  /** No pointer occurs twice. */
  ghost predicate Distinct<P>(t: Tree<P>) {
    t.Node? ==>
      && Distinct(t.left) && Distinct(t.right) && Ptrs(t.left) !! Ptrs(t.right)
      && t.p !in Ptrs(t.left) && t.p !in Ptrs(t.right)
  }

  ghost predicate DistinctCtx<P>(c: Ctx<P>) {
    !c.Top? ==>
      && DistinctCtx(c.up) && Distinct(c.other) && CtxPtrs(c.up) !! Ptrs(c.other)
      && c.p !in CtxPtrs(c.up) && c.p !in Ptrs(c.other)
  }

  ghost function RootOf<P>(t: Tree<P>, nil: P): P { if t.Leaf? then nil else t.p }

  ghost function ParentOf<P>(c: Ctx<P>, nil: P): P { if c.Top? then nil else c.p }

  /** The root pointer of the whole tree when the hole's tree has root pointer `hole`. */
  ghost function TopOf<P>(c: Ctx<P>, hole: P): P { if c.Top? then hole else TopOf(c.up, c.p) }

  /** The record that a node of a tree must have. */
  ghost function RecOf<P>(l: Tree<P>, color: Color, entry: Entry, r: Tree<P>, parent: P, nil: P): Rec<P> {
    Rec(color, RootOf(l, nil), RootOf(r, nil), parent, entry)
  }

  /** The store holds this tree below `parent`: children and parent pointers agree. */
  ghost predicate IsTree<P>(m: map<P, Rec<P>>, t: Tree<P>, parent: P, nil: P) {
    t.Node? ==>
      && t.p != nil && t.p in m
      && m[t.p] == RecOf(t.left, t.color, t.entry, t.right, parent, nil)
      && IsTree(m, t.left, t.p, nil) && IsTree(m, t.right, t.p, nil)
  }

  /** The store holds everything around the hole, in which a tree rooted at `hole` hangs. */
  ghost predicate IsCtx<P>(m: map<P, Rec<P>>, c: Ctx<P>, hole: P, nil: P) {
    !c.Top? ==>
      && c.p != nil && c.p in m
      && m[c.p] == Rec(c.color, if c.InLeft? then hole else RootOf(c.other, nil),
                       if c.InLeft? then RootOf(c.other, nil) else hole, ParentOf(c.up, nil), c.entry)
      && IsTree(m, c.other, c.p, nil) && IsCtx(m, c.up, c.p, nil)
  }

  /** The sentinel: black with self-pointing children; its parent field is scratch. */
  ghost predicate NilOk<P>(s: Store<P>) {
    s.nil in s.m && s.m[s.nil].color == Black && s.m[s.nil].left == s.nil && s.m[s.nil].right == s.nil
  }

  /** The store holds `t` in the hole of `c`. */
  ghost predicate Focused<P>(s: Store<P>, c: Ctx<P>, t: Tree<P>) {
    && NilOk(s)
    && IsTree(s.m, t, ParentOf(c, s.nil), s.nil) && IsCtx(s.m, c, RootOf(t, s.nil), s.nil)
    && s.root == TopOf(c, RootOf(t, s.nil))
    && Distinct(t) && DistinctCtx(c) && Ptrs(t) !! CtxPtrs(c)
  }

  // ----- field assignments -----

  ghost function SetColor<P>(s: Store<P>, p: P, color: Color): Store<P>
    requires p in s.m
  {
    s.(m := s.m[p := s.m[p].(color := color)])
  }

  ghost function SetLeft<P>(s: Store<P>, p: P, q: P): Store<P>
    requires p in s.m
  {
    s.(m := s.m[p := s.m[p].(left := q)])
  }

  ghost function SetRight<P>(s: Store<P>, p: P, q: P): Store<P>
    requires p in s.m
  {
    s.(m := s.m[p := s.m[p].(right := q)])
  }

  ghost function SetParent<P>(s: Store<P>, p: P, q: P): Store<P>
    requires p in s.m
  {
    s.(m := s.m[p := s.m[p].(parent := q)])
  }

  ghost function SetEntry<P>(s: Store<P>, p: P, e: Entry): Store<P>
    requires p in s.m
  {
    s.(m := s.m[p := s.m[p].(entry := e)])
  }

  // ----- frames -----

  ghost predicate Agree<P>(m: map<P, Rec<P>>, m': map<P, Rec<P>>, ps: set<P>) {
    forall p :: p in ps ==> p in m && p in m' && m'[p] == m[p]
  }

  lemma {:induction false} TreeInStore<P>(m: map<P, Rec<P>>, t: Tree<P>, parent: P, nil: P)
    requires IsTree(m, t, parent, nil)
    ensures nil !in Ptrs(t) && forall p :: p in Ptrs(t) ==> p in m
  {
    if t.Node? {
      TreeInStore(m, t.left, t.p, nil);
      TreeInStore(m, t.right, t.p, nil);
    }
  }

  lemma {:induction false} CtxInStore<P>(m: map<P, Rec<P>>, c: Ctx<P>, hole: P, nil: P)
    requires IsCtx(m, c, hole, nil)
    ensures nil !in CtxPtrs(c) && forall p :: p in CtxPtrs(c) ==> p in m
  {
    if !c.Top? {
      TreeInStore(m, c.other, c.p, nil);
      CtxInStore(m, c.up, c.p, nil);
    }
  }

  lemma {:induction false} TreeFrame<P>(m: map<P, Rec<P>>, m': map<P, Rec<P>>, t: Tree<P>, parent: P, nil: P)
    requires IsTree(m, t, parent, nil) && Agree(m, m', Ptrs(t))
    ensures IsTree(m', t, parent, nil)
  {
    if t.Node? {
      TreeFrame(m, m', t.left, t.p, nil);
      TreeFrame(m, m', t.right, t.p, nil);
    }
  }

  /** A subtree hung below another parent. */
  lemma TreeReparent<P>(m: map<P, Rec<P>>, m': map<P, Rec<P>>, t: Tree<P>, parent: P, parent': P, nil: P)
    requires IsTree(m, t, parent, nil) && Distinct(t)
    requires t.Node? ==> t.p in m' && m'[t.p] == m[t.p].(parent := parent')
    requires t.Node? ==> Agree(m, m', Ptrs(t.left)) && Agree(m, m', Ptrs(t.right))
    ensures IsTree(m', t, parent', nil)
  {
    if t.Node? {
      TreeFrame(m, m', t.left, t.p, nil);
      TreeFrame(m, m', t.right, t.p, nil);
    }
  }

  lemma {:induction false} CtxFrame<P>(m: map<P, Rec<P>>, m': map<P, Rec<P>>, c: Ctx<P>, hole: P, nil: P)
    requires IsCtx(m, c, hole, nil) && Agree(m, m', CtxPtrs(c))
    ensures IsCtx(m', c, hole, nil)
  {
    if !c.Top? {
      TreeFrame(m, m', c.other, c.p, nil);
      CtxFrame(m, m', c.up, c.p, nil);
    }
  }

  /** Another tree in the hole: only the child pointer of the node above changes. */
  lemma CtxRehole<P>(m: map<P, Rec<P>>, m': map<P, Rec<P>>, c: Ctx<P>, hole: P, hole': P, nil: P)
    requires IsCtx(m, c, hole, nil)
    requires !c.Top? ==> c.p in m' && m'[c.p] == (if c.InLeft? then m[c.p].(left := hole') else m[c.p].(right := hole'))
    requires !c.Top? ==> Agree(m, m', CtxPtrs(c.up)) && Agree(m, m', Ptrs(c.other))
    ensures IsCtx(m', c, hole', nil)
  {
    if !c.Top? {
      TreeFrame(m, m', c.other, c.p, nil);
      CtxFrame(m, m', c.up, c.p, nil);
    }
  }

  // ----- moving the focus -----

  /** The tree around the hole, one step up. */
  ghost function Lift<P>(c: Ctx<P>, t: Tree<P>): (r: Tree<P>)
    requires !c.Top?
    ensures r.Node? && r.p == c.p
  {
    if c.InLeft? then Node(t, c.p, c.color, c.entry, c.other) else Node(c.other, c.p, c.color, c.entry, t)
  }

  lemma Up<P>(s: Store<P>, c: Ctx<P>, t: Tree<P>)
    requires Focused(s, c, t) && !c.Top?
    ensures Focused(s, c.up, Lift(c, t)) && Plug(c.up, Lift(c, t)) == Plug(c, t)
  {}

  lemma DownLeft<P>(s: Store<P>, c: Ctx<P>, t: Tree<P>)
    requires Focused(s, c, t) && t.Node?
    ensures Focused(s, InLeft(c, t.p, t.color, t.entry, t.right), t.left)
  {}

  lemma DownRight<P>(s: Store<P>, c: Ctx<P>, t: Tree<P>)
    requires Focused(s, c, t) && t.Node?
    ensures Focused(s, InRight(c, t.p, t.color, t.entry, t.left), t.right)
  {}

  /** All the way up. */
  lemma {:induction false} Whole<P>(s: Store<P>, c: Ctx<P>, t: Tree<P>)
    requires Focused(s, c, t)
    ensures Focused(s, Top, Plug(c, t))
    decreases c
  {
    hide Focused;
    if !c.Top? {
      Up(s, c, t);
      Whole(s, c.up, Lift(c, t));
    }
  }

  lemma Coloured<P>(s: Store<P>, c: Ctx<P>, t: Tree<P>, color: Color)
    requires Focused(s, c, t) && t.Node?
    ensures t.p in s.m && Focused(SetColor(s, t.p, color), c, t.(color := color))
  {
    var s' := SetColor(s, t.p, color);
    OnlyRoot(s, s', c, t);
  }

  lemma Rewritten<P>(s: Store<P>, c: Ctx<P>, t: Tree<P>, e: Entry)
    requires Focused(s, c, t) && t.Node?
    ensures t.p in s.m && Focused(SetEntry(s, t.p, e), c, t.(entry := e))
  {
    var s' := SetEntry(s, t.p, e);
    OnlyRoot(s, s', c, t);
  }

  /** A change of the focused node's record leaves its subtrees and surroundings in place. */
  lemma OnlyRoot<P>(s: Store<P>, s': Store<P>, c: Ctx<P>, t: Tree<P>)
    requires Focused(s, c, t) && t.Node?
    requires forall p :: p in s.m && p != t.p ==> p in s'.m && s'.m[p] == s.m[p]
    ensures IsTree(s'.m, t.left, t.p, s.nil) && IsTree(s'.m, t.right, t.p, s.nil) && IsCtx(s'.m, c, t.p, s.nil)
    ensures s.nil in s'.m && s'.m[s.nil] == s.m[s.nil]
  {
    TreeInStore(s.m, t, ParentOf(c, s.nil), s.nil);
    CtxInStore(s.m, c, t.p, s.nil);
    TreeFrame(s.m, s'.m, t.left, t.p, s.nil);
    TreeFrame(s.m, s'.m, t.right, t.p, s.nil);
    CtxFrame(s.m, s'.m, c, t.p, s.nil);
  }

  // ----- rotations -----

  /** Whoever pointed at `x` from above points at `y` instead. */
  ghost function Replace<P>(s: Store<P>, x: P, y: P): Store<P>
    requires x in s.m && (s.m[x].parent != s.nil ==> s.m[x].parent in s.m)
  {
    var above := s.m[x].parent;
    if above == s.nil then s.(root := y)
    else if x == s.m[above].left then SetLeft(s, above, y)
    else SetRight(s, above, y)
  }

  ghost predicate CanRotateLeft<P>(s: Store<P>, x: P) {
    && x in s.m && s.m[x].right in s.m && s.m[x].right != x
    && (s.m[s.m[x].right].left != s.nil ==> s.m[s.m[x].right].left in s.m)
    && (s.m[x].parent != s.nil ==> s.m[x].parent in s.m)
  }

  ghost predicate CanRotateRight<P>(s: Store<P>, y: P) {
    && y in s.m && s.m[y].left in s.m && s.m[y].left != y
    && (s.m[s.m[y].left].right != s.nil ==> s.m[s.m[y].left].right in s.m)
    && (s.m[y].parent != s.nil ==> s.m[y].parent in s.m)
  }

  /** `rbtree_left_rotate`. */
  ghost function RotateLeft<P>(s: Store<P>, x: P): (s': Store<P>)
    requires CanRotateLeft(s, x)
    ensures s'.m.Keys == s.m.Keys && s'.nil == s.nil
  {
    var y := s.m[x].right;
    var inner := s.m[y].left;
    var s1 := SetRight(s, x, inner);
    var s2 := if inner != s.nil then SetParent(s1, inner, x) else s1;
    var s3 := SetParent(s2, y, s2.m[x].parent);
    SetParent(SetLeft(Replace(s3, x, y), y, x), x, y)
  }

  /** `rbtree_right_rotate`. */
  ghost function RotateRight<P>(s: Store<P>, y: P): (s': Store<P>)
    requires CanRotateRight(s, y)
    ensures s'.m.Keys == s.m.Keys && s'.nil == s.nil
  {
    var x := s.m[y].left;
    var inner := s.m[x].right;
    var s1 := SetLeft(s, y, inner);
    var s2 := if inner != s.nil then SetParent(s1, inner, y) else s1;
    var s3 := SetParent(s2, x, s2.m[y].parent);
    SetParent(SetRight(Replace(s3, y, x), x, y), y, x)
  }

  /** What a rotation does to the records, all at once: `lo` is the node that goes down, `hi` the one
      that comes up, `inner` the subtree that changes sides. */
  lemma RotateLeftRecords<P>(s: Store<P>, c: Ctx<P>, t: Tree<P>)
    requires Focused(s, c, t) && t.Node? && t.right.Node?
    ensures CanRotateLeft(s, t.p)
    ensures var s', x, y, inner := RotateLeft(s, t.p), t.p, t.right.p, RootOf(t.right.left, s.nil);
            && s'.m[x] == s.m[x].(right := inner, parent := y)
            && s'.m[y] == s.m[y].(left := x, parent := s.m[x].parent)
            && (inner != s.nil ==> s'.m[inner] == s.m[inner].(parent := x))
            && (c.InLeft? ==> s'.m[c.p] == s.m[c.p].(left := y))
            && (c.InRight? ==> s'.m[c.p] == s.m[c.p].(right := y))
            && s'.root == (if c.Top? then y else s.root)
            && (forall p :: p in s.m && p != x && p != y && (p != inner || inner == s.nil) && (c.Top? || p != c.p) ==>
                s'.m[p] == s.m[p])
  {
    TreeInStore(s.m, t, ParentOf(c, s.nil), s.nil);
    CtxInStore(s.m, c, t.p, s.nil);
    if c.InRight? && c.other.Node? {
      assert c.other.p in Ptrs(c.other) && c.other.p in CtxPtrs(c);
    }
    assert IsTree(s.m, t.right, t.p, s.nil) && IsTree(s.m, t.right.left, t.right.p, s.nil) && Distinct(t.right);
    if t.right.left.Node? {
      assert t.right.left.p in Ptrs(t.right.left);
    }
  }

  lemma RotateRightRecords<P>(s: Store<P>, c: Ctx<P>, t: Tree<P>)
    requires Focused(s, c, t) && t.Node? && t.left.Node?
    ensures CanRotateRight(s, t.p)
    ensures var s', y, x, inner := RotateRight(s, t.p), t.p, t.left.p, RootOf(t.left.right, s.nil);
            && s'.m[y] == s.m[y].(left := inner, parent := x)
            && s'.m[x] == s.m[x].(right := y, parent := s.m[y].parent)
            && (inner != s.nil ==> s'.m[inner] == s.m[inner].(parent := y))
            && (c.InLeft? ==> s'.m[c.p] == s.m[c.p].(left := x))
            && (c.InRight? ==> s'.m[c.p] == s.m[c.p].(right := x))
            && s'.root == (if c.Top? then x else s.root)
            && (forall p :: p in s.m && p != x && p != y && (p != inner || inner == s.nil) && (c.Top? || p != c.p) ==>
                s'.m[p] == s.m[p])
  {
    TreeInStore(s.m, t, ParentOf(c, s.nil), s.nil);
    CtxInStore(s.m, c, t.p, s.nil);
    if c.InRight? && c.other.Node? {
      assert c.other.p in Ptrs(c.other) && c.other.p in CtxPtrs(c);
    }
    assert IsTree(s.m, t.left, t.p, s.nil) && IsTree(s.m, t.left.right, t.left.p, s.nil) && Distinct(t.left);
    if t.left.right.Node? {
      assert t.left.right.p in Ptrs(t.left.right);
    }
  }

  /** The tree after a left rotation at its root. */
  ghost function Lefted<P>(t: Tree<P>): Tree<P>
    requires t.Node? && t.right.Node?
  {
    Node(Node(t.left, t.p, t.color, t.entry, t.right.left), t.right.p, t.right.color, t.right.entry, t.right.right)
  }

  ghost function Righted<P>(t: Tree<P>): Tree<P>
    requires t.Node? && t.left.Node?
  {
    Node(t.left.left, t.left.p, t.left.color, t.left.entry, Node(t.left.right, t.p, t.color, t.entry, t.right))
  }

  /** Rotation, pointer by pointer, is rotation of the tree; the sentinel is untouched. */
  lemma RotatedLeft<P>(s: Store<P>, c: Ctx<P>, t: Tree<P>)
    requires Focused(s, c, t) && t.Node? && t.right.Node?
    ensures CanRotateLeft(s, t.p) && Focused(RotateLeft(s, t.p), c, Lefted(t))
    ensures RotateLeft(s, t.p).m[s.nil] == s.m[s.nil]
  {
    hide RotateLeft;
    RotateLeftRecords(s, c, t);
    TreeInStore(s.m, t, ParentOf(c, s.nil), s.nil);
    CtxInStore(s.m, c, t.p, s.nil);
    var s', y := RotateLeft(s, t.p), t.right;
    assert IsTree(s.m, y, t.p, s.nil) && Distinct(y) && Distinct(y.left);
    TreeFrame(s.m, s'.m, t.left, t.p, s.nil);
    TreeReparent(s.m, s'.m, y.left, y.p, t.p, s.nil);
    TreeFrame(s.m, s'.m, y.right, y.p, s.nil);
    CtxRehole(s.m, s'.m, c, t.p, y.p, s.nil);
    RotatedPtrs(t.left, t.p, y.left, y.p, y.right);
    var lo := Node(t.left, t.p, t.color, t.entry, y.left);
    assert IsTree(s'.m, lo, y.p, s.nil) && Distinct(lo);
    assert IsTree(s'.m, Lefted(t), ParentOf(c, s.nil), s.nil) && Distinct(Lefted(t));
    assert Ptrs(Lefted(t)) == Ptrs(t);
  }

  lemma RotatedRight<P>(s: Store<P>, c: Ctx<P>, t: Tree<P>)
    requires Focused(s, c, t) && t.Node? && t.left.Node?
    ensures CanRotateRight(s, t.p) && Focused(RotateRight(s, t.p), c, Righted(t))
    ensures RotateRight(s, t.p).m[s.nil] == s.m[s.nil]
  {
    hide RotateRight;
    RotateRightRecords(s, c, t);
    TreeInStore(s.m, t, ParentOf(c, s.nil), s.nil);
    CtxInStore(s.m, c, t.p, s.nil);
    var s', x := RotateRight(s, t.p), t.left;
    assert IsTree(s.m, x, t.p, s.nil) && Distinct(x) && Distinct(x.right);
    TreeFrame(s.m, s'.m, x.left, x.p, s.nil);
    TreeReparent(s.m, s'.m, x.right, x.p, t.p, s.nil);
    TreeFrame(s.m, s'.m, t.right, t.p, s.nil);
    CtxRehole(s.m, s'.m, c, t.p, x.p, s.nil);
    RotatedPtrs(x.left, x.p, x.right, t.p, t.right);
    var lo := Node(x.right, t.p, t.color, t.entry, t.right);
    assert IsTree(s'.m, lo, x.p, s.nil) && Distinct(lo);
    assert IsTree(s'.m, Righted(t), ParentOf(c, s.nil), s.nil) && Distinct(Righted(t));
    assert Ptrs(Righted(t)) == Ptrs(t);
  }

  lemma RotatedPtrs<P>(a: Tree<P>, x: P, b: Tree<P>, y: P, g: Tree<P>)
    ensures (Ptrs(a) + {x} + Ptrs(b)) + {y} + Ptrs(g) == Ptrs(a) + {x} + (Ptrs(b) + {y} + Ptrs(g))
  {}

  // ----- planting a new leaf -----

  /** `rbtree_insert` after its search: the new node becomes a red leaf below `y`. */
  ghost function Plant<P>(s: Store<P>, z: P, y: P, left: bool): (s': Store<P>)
    requires z in s.m && (y != s.nil ==> y in s.m)
    ensures s'.m.Keys == s.m.Keys && s'.nil == s.nil
  {
    var s1 := SetParent(s, z, y);
    var s2 := if y == s.nil then s1.(root := z) else if left then SetLeft(s1, y, z) else SetRight(s1, y, z);
    SetColor(SetRight(SetLeft(s2, z, s.nil), z, s.nil), z, Red)
  }

  lemma Planted<P>(s: Store<P>, c: Ctx<P>, z: P, r: Rec<P>)
    requires Focused(s, c, Leaf) && z !in s.m
    ensures var s1, y := s.(m := s.m[z := r]), ParentOf(c, s.nil);
            (y != s.nil ==> y in s1.m) && Focused(Plant(s1, z, y, c.InLeft?), c, Node(Leaf, z, Red, r.entry, Leaf))
  {
    CtxInStore(s.m, c, s.nil, s.nil);
    var s' := Plant(s.(m := s.m[z := r]), z, ParentOf(c, s.nil), c.InLeft?);
    CtxRehole(s.m, s'.m, c, s.nil, z, s.nil);
  }
}
