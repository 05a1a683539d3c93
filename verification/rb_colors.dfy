/** Order and colours of red-black trees, through the hole of a context. */
module RbColors {
  import opened StrOrder
  import opened Dict
  import opened RbStore
  import Seqs

  // ----- order -----

  ghost function Inorder<P>(t: Tree<P>): seq<Entry> {
    if t.Leaf? then [] else Inorder(t.left) + [t.entry] + Inorder(t.right)
  }

  /** The entries before and after the hole. */
  ghost function Pre<P>(c: Ctx<P>): seq<Entry> {
    match c
    case Top => []
    case InLeft(up, _, _, _, _) => Pre(up)
    case InRight(up, _, _, entry, other) => Pre(up) + (Inorder(other) + [entry])
  }

  ghost function Post<P>(c: Ctx<P>): seq<Entry> {
    match c
    case Top => []
    case InLeft(up, _, _, entry, other) => ([entry] + Inorder(other)) + Post(up)
    case InRight(up, _, _, _, _) => Post(up)
  }

  lemma {:induction false} PlugInorder<P>(c: Ctx<P>, t: Tree<P>)
    ensures Inorder(Plug(c, t)) == Pre(c) + Inorder(t) + Post(c)
    decreases c
  {
    match c
    case Top =>
    case InLeft(up, p, color, entry, other) =>
      PlugInorder(up, Node(t, p, color, entry, other));
      Seqs.Assoc(Inorder(t), [entry], Inorder(other));
      Seqs.Assoc(Pre(up), Inorder(t), [entry] + Inorder(other));
      Seqs.Assoc(Pre(up) + Inorder(t), [entry] + Inorder(other), Post(up));
    case InRight(up, p, color, entry, other) =>
      PlugInorder(up, Node(other, p, color, entry, t));
      Seqs.Assoc(Pre(up), Inorder(other) + [entry], Inorder(t));
  }

  lemma RotatedInorder<P>(t: Tree<P>)
    ensures t.Node? && t.right.Node? ==> Inorder(Lefted(t)) == Inorder(t)
    ensures t.Node? && t.left.Node? ==> Inorder(Righted(t)) == Inorder(t)
  {
    if t.Node? && t.right.Node? {
      var y := t.right;
      Reassoc(Inorder(t.left) + [t.entry], Inorder(y.left), [y.entry], Inorder(y.right));
    }
    if t.Node? && t.left.Node? {
      var x := t.left;
      Reassoc(Inorder(x.left) + [x.entry], Inorder(x.right), [t.entry], Inorder(t.right));
    }
  }

  lemma Reassoc<T>(a: seq<T>, b: seq<T>, c: seq<T>, d: seq<T>)
    ensures a + b + c + d == a + (b + c + d)
  {
    Seqs.Assoc(a, b, c);
    Seqs.Assoc(a, b + c, d);
  }

  /** Replacing a subtree by one with the same entries. */
  lemma SameInorder<P>(c: Ctx<P>, t: Tree<P>, t': Tree<P>)
    requires Inorder(t) == Inorder(t')
    ensures Inorder(Plug(c, t)) == Inorder(Plug(c, t'))
  {
    PlugInorder(c, t);
    PlugInorder(c, t');
  }

  // ----- searching -----

  /** The entries on either side of the focused node. */
  lemma EntriesAround<P>(c: Ctx<P>, t: Tree<P>)
    requires t.Node?
    ensures Inorder(Plug(c, t)) == (Pre(c) + Inorder(t.left)) + [t.entry] + (Inorder(t.right) + Post(c))
  {
    PlugInorder(c, t);
    var a, b, e, d, f := Pre(c), Inorder(t.left), [t.entry], Inorder(t.right), Post(c);
    Seqs.Assoc(a, b + e, d);
    Seqs.Assoc(a, b, e);
    Seqs.Assoc(a + b + e, d, f);
  }

  /** The hole is where `key` belongs. */
  ghost predicate Brackets<P>(c: Ctx<P>, key: string) {
    Below(Pre(c), key) && Above(key, Post(c))
  }

  lemma BracketsTop<P>(key: string)
    ensures Brackets<P>(Top, key)
  {}

  lemma SearchLeft<P>(c: Ctx<P>, t: Tree<P>, key: string)
    requires t.Node? && Sorted(Inorder(Plug(c, t))) && Brackets(c, key) && Less(key, t.entry.key)
    ensures Brackets(InLeft(c, t.p, t.color, t.entry, t.right), key)
  {
    EntriesAround(c, t);
    SortedSplit(Pre(c) + Inorder(t.left), t.entry, Inorder(t.right) + Post(c));
    var above := ([t.entry] + Inorder(t.right)) + Post(c);
    forall i | 0 <= i < |above| ensures Less(key, above[i].key) {
      if i > 0 {
        assert above[i] == (Inorder(t.right) + Post(c))[i - 1];
        LessTrans(key, t.entry.key, above[i].key);
      }
    }
  }

  lemma SearchRight<P>(c: Ctx<P>, t: Tree<P>, key: string)
    requires t.Node? && Sorted(Inorder(Plug(c, t))) && Brackets(c, key) && Less(t.entry.key, key)
    ensures Brackets(InRight(c, t.p, t.color, t.entry, t.left), key)
  {
    EntriesAround(c, t);
    SortedSplit(Pre(c) + Inorder(t.left), t.entry, Inorder(t.right) + Post(c));
    var below := Pre(c) + (Inorder(t.left) + [t.entry]);
    forall i | 0 <= i < |below| ensures Less(below[i].key, key) {
      if i < |below| - 1 {
        assert below[i] == (Pre(c) + Inorder(t.left))[i];
        LessTrans(below[i].key, t.entry.key, key);
      }
    }
  }

  /** A search that stops at a node has found the key's entry; one that stops at a leaf has shown
      that there is none. */
  lemma SearchEnds<P>(c: Ctx<P>, t: Tree<P>, key: string)
    requires Sorted(Inorder(Plug(c, t)))
    requires if t.Node? then t.entry.key == key else Brackets(c, key)
    ensures var m := AsMap(Inorder(Plug(c, t)));
            if t.Node? then key in m && m[key] == t.entry.value else key !in m
  {
    if t.Node? {
      EntriesAround(c, t);
      Found(Pre(c) + Inorder(t.left), t.entry, Inorder(t.right) + Post(c));
    } else {
      PlugInorder(c, t);
      assert Pre(c) + Inorder(t) == Pre(c);
      Missing(Pre(c), key, Post(c));
    }
  }

  /** An entry planted where its key belongs. */
  lemma PlantedEntries<P>(c: Ctx<P>, t: Tree<P>, p: P, color: Color, e: Entry)
    requires t.Leaf? && Sorted(Inorder(Plug(c, t))) && Brackets(c, e.key)
    ensures var es := Inorder(Plug(c, Node(Leaf, p, color, e, Leaf)));
            Sorted(es) && AsMap(es) == AsMap(Inorder(Plug(c, t)))[e.key := e.value]
  {
    PlugInorder(c, t);
    PlugInorder(c, Node(Leaf, p, color, e, Leaf));
    assert Inorder<P>(Leaf) + [e] + Inorder<P>(Leaf) == [e];
    assert Pre(c) + Inorder(t) == Pre(c);
    SortedParts(Pre(c), Post(c));
    SortedSplit(Pre(c), e, Post(c));
    Between(Pre(c), e, Post(c));
  }

  lemma SortedParts(a: seq<Entry>, b: seq<Entry>)
    requires Sorted(a + b)
    ensures Sorted(a) && Sorted(b)
  {
    forall i, j | 0 <= i < j < |a| ensures Less(a[i].key, a[j].key) {
      assert (a + b)[i] == a[i] && (a + b)[j] == a[j];
    }
    forall i, j | 0 <= i < j < |b| ensures Less(b[i].key, b[j].key) {
      assert (a + b)[|a| + i] == b[i] && (a + b)[|a| + j] == b[j];
    }
  }

  /** Another value at the focused node. */
  lemma RewrittenEntries<P>(c: Ctx<P>, t: Tree<P>, value: string)
    requires t.Node? && Sorted(Inorder(Plug(c, t)))
    ensures var es := Inorder(Plug(c, t.(entry := Entry(t.entry.key, value))));
            Sorted(es) && AsMap(es) == AsMap(Inorder(Plug(c, t)))[t.entry.key := value]
  {
    var e' := Entry(t.entry.key, value);
    var a, b := Pre(c) + Inorder(t.left), Inorder(t.right) + Post(c);
    EntriesAround(c, t);
    EntriesAround(c, t.(entry := e'));
    SortedSplit(a, t.entry, b);
    SortedSplit(a, e', b);
    Between(a, t.entry, b);
    Between(a, e', b);
  }

  // ----- colours -----

  ghost predicate BlackRoot<P>(t: Tree<P>) { t.Node? ==> t.color == Black }

  /** Every path to a leaf meets `h` black nodes, and no red node has a red child. */
  ghost predicate Rb<P>(t: Tree<P>, h: nat) {
    if t.Leaf? then h == 0
    else if t.color == Red then BlackRoot(t.left) && BlackRoot(t.right) && Rb(t.left, h) && Rb(t.right, h)
    else h > 0 && Rb(t.left, h - 1) && Rb(t.right, h - 1)
  }

  ghost predicate RedAbove<P>(c: Ctx<P>) { !c.Top? && c.color == Red }

  /** The context is a red-black tree once the hole is filled with one of black height `h`, except
      perhaps for a red node in the hole below a red one. */
  ghost predicate CtxRb<P>(c: Ctx<P>, h: nat) {
    if c.Top? then true
    else if c.color == Red then !c.up.Top? && c.up.color == Black && BlackRoot(c.other) && Rb(c.other, h)
      && CtxRb(c.up, h)
    else Rb(c.other, h) && CtxRb(c.up, h + 1)
  }

  /** A red-black tree: black root besides. */
  ghost predicate RbTree<P>(t: Tree<P>) {
    BlackRoot(t) && exists h: nat :: Rb(t, h)
  }

  ghost function Blacken<P>(t: Tree<P>): Tree<P> {
    if t.Node? then t.(color := Black) else t
  }

  lemma BlackenRb<P>(t: Tree<P>, h: nat)
    requires Rb(t, h)
    ensures RbTree(Blacken(t)) && Inorder(Blacken(t)) == Inorder(t)
  {
    if t.Node? {
      assert Rb(Blacken(t), if t.color == Red then h + 1 else h);
    } else {
      assert Rb(t, 0);
    }
  }

  /** A fitting tree in the hole makes a red-black tree; below a parent its root is black. */
  lemma {:induction false} PlugRb<P>(c: Ctx<P>, t: Tree<P>, h: nat) returns (h': nat)
    requires Rb(t, h) && CtxRb(c, h) && (RedAbove(c) ==> BlackRoot(t))
    ensures Rb(Plug(c, t), h') && (!c.Top? || BlackRoot(t) ==> BlackRoot(Plug(c, t)))
    decreases c
  {
    match c
    case Top => h' := h;
    case InLeft(up, p, color, entry, other) =>
      h' := PlugRb(up, Node(t, p, color, entry, other), if color == Red then h else h + 1);
    case InRight(up, p, color, entry, other) =>
      h' := PlugRb(up, Node(other, p, color, entry, t), if color == Red then h else h + 1);
  }

  // ----- size and height -----

  ghost function Size<P>(t: Tree<P>): nat { |Inorder(t)| }

  ghost function Height<P>(t: Tree<P>): nat {
    if t.Leaf? then 0 else 1 + if Height(t.left) >= Height(t.right) then Height(t.left) else Height(t.right)
  }

  ghost function Pow2(n: nat): nat { if n == 0 then 1 else 2 * Pow2(n - 1) }

  lemma {:induction false} HeightBound<P>(t: Tree<P>, h: nat)
    requires Rb(t, h)
    ensures Height(t) <= 2 * h + (if BlackRoot(t) then 0 else 1) && Size(t) + 1 >= Pow2(h)
  {
    if t.Node? {
      var h' := if t.color == Red then h else h - 1;
      HeightBound(t.left, h');
      HeightBound(t.right, h');
    }
  }

  lemma {:induction false} Pow2Mono(a: nat, b: nat)
    requires a <= b
    ensures Pow2(a) <= Pow2(b)
  {
    if a < b { Pow2Mono(a, b - 1); }
  }

  /** The height of a red-black tree of `n` entries is at most `2 * log2(n + 1)`. */
  lemma Balanced<P>(t: Tree<P>)
    requires RbTree(t)
    ensures Pow2((Height(t) + 1) / 2) <= Size(t) + 1
  {
    var h: nat :| Rb(t, h);
    HeightBound(t, h);
    Pow2Mono((Height(t) + 1) / 2, h);
  }

  // ----- insertion -----

  /** The state of the insertion repair: a red node whose parent may be red too. */
  ghost predicate Reddened<P>(c: Ctx<P>, t: Tree<P>) {
    t.Node? && t.color == Red && exists h: nat :: Rb(t, h) && CtxRb(c, h)
  }

  /** The repair has succeeded: what is in the hole fits. */
  ghost predicate Fitted<P>(c: Ctx<P>, t: Tree<P>) {
    exists h: nat :: Rb(t, h) && CtxRb(c, h) && (RedAbove(c) ==> BlackRoot(t))
  }

  /** The tree around a red node with a red parent and a red uncle, after recolouring. */
  ghost function Recoloured<P>(c: Ctx<P>, t: Tree<P>): Tree<P>
    requires !c.Top? && !c.up.Top? && c.up.other.Node?
  {
    var parent := if c.InLeft? then Node(t, c.p, Black, c.entry, c.other) else Node(c.other, c.p, Black, c.entry, t);
    var uncle := c.up.other.(color := Black);
    if c.up.InLeft? then Node(parent, c.up.p, Red, c.up.entry, uncle) else Node(uncle, c.up.p, Red, c.up.entry, parent)
  }

  lemma RecolourOk<P>(c: Ctx<P>, t: Tree<P>)
    requires Reddened(c, t) && RedAbove(c) && c.up.other.Node? && c.up.other.color == Red
    ensures Reddened(c.up.up, Recoloured(c, t))
  {
    var h: nat :| Rb(t, h) && CtxRb(c, h);
    assert CtxRb(c.up, h) && Rb(c.up.other, h) && CtxRb(c.up.up, h + 1);
    var parent := if c.InLeft? then Node(t, c.p, Black, c.entry, c.other) else Node(c.other, c.p, Black, c.entry, t);
    assert Rb(parent, h + 1) && Rb(c.up.other.(color := Black), h + 1);
    assert Rb(Recoloured(c, t), h + 1);
  }

  /** The tree around a red node with a red parent and a black uncle, after the rotation at the
      grandparent; the node is an outer grandchild. */
  ghost function Outer<P>(c: Ctx<P>, t: Tree<P>): Tree<P>
    requires (c.InLeft? && c.up.InLeft?) || (c.InRight? && c.up.InRight?)
  {
    if c.InLeft?
    then Node(t, c.p, Black, c.entry, Node(c.other, c.up.p, Red, c.up.entry, c.up.other))
    else Node(Node(c.up.other, c.up.p, Red, c.up.entry, c.other), c.p, Black, c.entry, t)
  }

  lemma OuterOk<P>(c: Ctx<P>, t: Tree<P>)
    requires Reddened(c, t) && RedAbove(c) && BlackRoot(c.up.other)
    requires (c.InLeft? && c.up.InLeft?) || (c.InRight? && c.up.InRight?)
    ensures Fitted(c.up.up, Outer(c, t))
  {
    var h: nat :| Rb(t, h) && CtxRb(c, h);
    assert CtxRb(c.up, h) && Rb(c.up.other, h) && CtxRb(c.up.up, h + 1);
    var low := if c.InLeft? then Node(c.other, c.up.p, Red, c.up.entry, c.up.other)
        else Node(c.up.other, c.up.p, Red, c.up.entry, c.other);
    assert Rb(low, h);
    assert Rb(Outer(c, t), h + 1);
  }

  /** An inner grandchild becomes an outer one by a rotation at its parent: the old parent, now the
      lower of the two, is the node to go on with. */
  lemma InnerOk<P>(c: Ctx<P>, t: Tree<P>)
    requires Reddened(c, t) && RedAbove(c)
    ensures c.InRight? ==> Reddened(InLeft(c.up, t.p, Red, t.entry, t.right), Node(c.other, c.p, Red, c.entry, t.left))
    ensures c.InLeft? ==> Reddened(InRight(c.up, t.p, Red, t.entry, t.left), Node(t.right, c.p, Red, c.entry, c.other))
  {
    var h: nat :| Rb(t, h) && CtxRb(c, h);
    if c.InRight? {
      assert Rb(Node(c.other, c.p, Red, c.entry, t.left), h) && CtxRb(InLeft(c.up, t.p, Red, t.entry, t.right), h);
    } else {
      assert Rb(Node(t.right, c.p, Red, c.entry, c.other), h) && CtxRb(InRight(c.up, t.p, Red, t.entry, t.left), h);
    }
  }

  lemma RecolourEntries<P>(c: Ctx<P>, t: Tree<P>)
    requires !c.Top? && !c.up.Top? && c.up.other.Node?
    ensures Inorder(Plug(c.up.up, Recoloured(c, t))) == Inorder(Plug(c, t))
  {
    var g := Lift(c.up, Lift(c, t));
    var parent := Lift(c, t).(color := Black);
    assert Inorder(parent) == Inorder(Lift(c, t)) && Inorder(c.up.other.(color := Black)) == Inorder(c.up.other);
    assert Plug(c, t) == Plug(c.up, Lift(c, t)) == Plug(c.up.up, g);
    SameInorder(c.up.up, g, Recoloured(c, t));
  }

  /** Parent black and grandparent red, before the last rotation. */
  ghost function Swapped<P>(c: Ctx<P>, t: Tree<P>): (g: Tree<P>)
    requires !c.Top? && !c.up.Top?
    ensures g.Node? && g.p == c.up.p
  {
    var p := Lift(c, t);
    var g := Lift(c.up, p.(color := Black));
    g.(color := Red)
  }

  lemma OuterEntries<P>(c: Ctx<P>, t: Tree<P>)
    requires (c.InLeft? && c.up.InLeft?) || (c.InRight? && c.up.InRight?)
    ensures Inorder(Plug(c.up.up, Outer(c, t))) == Inorder(Plug(c, t))
    ensures c.InLeft? ==> Swapped(c, t).left.Node? && Outer(c, t) == Righted(Swapped(c, t))
    ensures c.InRight? ==> Swapped(c, t).right.Node? && Outer(c, t) == Lefted(Swapped(c, t))
  {
    var g0 := Lift(c.up, Lift(c, t));
    var g, p := Swapped(c, t), Lift(c, t);
    assert Inorder(p.(color := Black)) == Inorder(p);
    assert Inorder(g) == Inorder(g0);
    RotatedInorder(g);
    assert Plug(c, t) == Plug(c.up, Lift(c, t)) == Plug(c.up.up, g0);
    SameInorder(c.up.up, g0, Outer(c, t));
  }

  /** The rotation that turns an inner grandchild into an outer one. */
  lemma InnerEntries<P>(c: Ctx<P>, t: Tree<P>)
    requires !c.Top? && t.Node?
    ensures c.InRight? ==> Inorder(Plug(c.up, Lefted(Lift(c, t)))) == Inorder(Plug(c, t))
    ensures c.InLeft? ==> Inorder(Plug(c.up, Righted(Lift(c, t)))) == Inorder(Plug(c, t))
  {
    var p := Lift(c, t);
    RotatedInorder(p);
    assert Plug(c, t) == Plug(c.up, p);
    if c.InRight? {
      SameInorder(c.up, p, Lefted(p));
    } else {
      SameInorder(c.up, p, Righted(p));
    }
  }

  lemma {:induction false} PlugNode<P>(c: Ctx<P>, t: Tree<P>)
    requires t.Node? || !c.Top?
    ensures Plug(c, t).Node?
    decreases c
  {
    if !c.Top? {
      PlugNode(c.up, Lift(c, t));
    }
  }

  lemma FittedTree<P>(c: Ctx<P>, t: Tree<P>)
    requires Fitted(c, t) || (Reddened(c, t) && !RedAbove(c))
    ensures RbTree(Blacken(Plug(c, t))) && Inorder(Blacken(Plug(c, t))) == Inorder(Plug(c, t))
  {
    var h: nat :| Rb(t, h) && CtxRb(c, h) && (RedAbove(c) ==> BlackRoot(t));
    var h' := PlugRb(c, t, h);
    BlackenRb(Plug(c, t), h');
  }

  // ----- the invariants, away from the repairs -----

  /** A subtree of a red-black tree and its surroundings. */
  lemma {:induction false} UnplugRb<P>(c: Ctx<P>, t: Tree<P>, h0: nat) returns (h: nat)
    requires Rb(Plug(c, t), h0) && BlackRoot(Plug(c, t))
    ensures Rb(t, h) && CtxRb(c, h) && (RedAbove(c) ==> BlackRoot(t)) && (c.Top? ==> BlackRoot(t))
    decreases c
  {
    match c
    case Top => h := h0;
    case InLeft(up, p, color, entry, other) =>
      var h1 := UnplugRb(up, Node(t, p, color, entry, other), h0);
      h := if color == Red then h1 else h1 - 1;
    case InRight(up, p, color, entry, other) =>
      var h1 := UnplugRb(up, Node(other, p, color, entry, t), h0);
      h := if color == Red then h1 else h1 - 1;
  }

  lemma RewrittenRb<P>(c: Ctx<P>, t: Tree<P>, e: Entry)
    requires RbTree(Plug(c, t)) && t.Node?
    ensures RbTree(Plug(c, t.(entry := e)))
  {
    var h0: nat :| Rb(Plug(c, t), h0);
    var h := UnplugRb(c, t, h0);
    var h' := PlugRb(c, t.(entry := e), h);
  }

  /** A new red leaf starts the insertion repair. */
  lemma PlantedRb<P>(c: Ctx<P>, t: Tree<P>, leaf: Tree<P>)
    requires RbTree(Plug(c, t)) && t.Leaf? && leaf.Node? && leaf.color == Red && leaf.left.Leaf? && leaf.right.Leaf?
    ensures Reddened(c, leaf)
  {
    var h0: nat :| Rb(Plug(c, t), h0);
    var h := UnplugRb(c, t, h0);
    assert Rb(leaf, h);
  }

  /** Which side of its parent a leaf hangs on follows from the order. */
  lemma SideOf<P>(c: Ctx<P>, key: string)
    requires Brackets(c, key)
    ensures c.InLeft? ==> Cmp(key, c.entry.key) < 0
    ensures c.InRight? ==> Cmp(key, c.entry.key) > 0
  {
    if c.InLeft? {
      assert Post(c)[0] == c.entry;
    } else if c.InRight? {
      assert Pre(c)[|Pre(c)| - 1] == c.entry;
      CmpFlip(key, c.entry.key);
    }
  }
}
