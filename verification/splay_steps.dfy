/** What each step of a splay does to the pointers, and that it keeps the nodes in order. */
module SplaySteps {
  import opened Seqs
  import opened SplayShapes

  /** The nodes of the three parts are apart from each other and from the auxiliary node. */
  lemma PartsApart(d: SplayNode, l: Side, mid: Tree, r: Side)
    requires Distinct(All(l, mid, r)) && d !in All(l, mid, r)
    ensures Distinct(LeftNodes(l)) && Distinct(Nodes(mid)) && Distinct(RightNodes(r))
    ensures d !in LeftNodes(l) && d !in Nodes(mid) && d !in RightNodes(r)
    ensures forall p :: p in LeftNodes(l) ==> p !in Nodes(mid) && p !in RightNodes(r)
    ensures forall p :: p in Nodes(mid) ==> p !in RightNodes(r)
  {
    DistinctParts(LeftNodes(l) + Nodes(mid), RightNodes(r));
    DistinctParts(LeftNodes(l), Nodes(mid));
  }

  lemma RootApart(t: Tree)
    requires t.Node? && Distinct(Nodes(t))
    ensures t.p !in Nodes(t.left) && t.p !in Nodes(t.right) && Distinct(Nodes(t.left)) && Distinct(Nodes(t.right))
    ensures forall p :: p in Nodes(t.left) ==> p !in Nodes(t.right)
  {
    DistinctParts(Nodes(t.left) + [t.p], Nodes(t.right));
    DistinctParts(Nodes(t.left), [t.p]);
  }

  lemma PartsOf(t: Tree)
    requires t.Node?
    ensures t.p in Nodes(t)
    ensures forall p :: p in Nodes(t.left) ==> p in Nodes(t)
    ensures forall p :: p in Nodes(t.right) ==> p in Nodes(t)
  {
  }

  lemma LastInLeft(d: SplayNode, s: Side)
    ensures Last(d, s) == d || Last(d, s) in LeftNodes(s)
  {
  }

  lemma LastInRight(d: SplayNode, s: Side)
    ensures Last(d, s) == d || Last(d, s) in RightNodes(s)
  {
  }

  lemma LeftEdge(d: SplayNode, s: Side)
    requires Distinct(LeftNodes(s)) && s.Hung?
    ensures s.p in LeftNodes(s) && s.p !in Nodes(s.far) && s.p !in LeftNodes(s.rest)
  {
    DistinctParts(LeftNodes(s.rest), Nodes(s.far) + [s.p]);
    DistinctParts(Nodes(s.far), [s.p]);
    assert s.p in Nodes(s.far) + [s.p];
  }

  lemma RightEdge(d: SplayNode, s: Side)
    requires Distinct(RightNodes(s)) && s.Hung?
    ensures s.p in RightNodes(s) && s.p !in Nodes(s.far) && s.p !in RightNodes(s.rest)
  {
    DistinctParts([s.p] + Nodes(s.far), RightNodes(s.rest));
    DistinctParts([s.p], Nodes(s.far));
    assert s.p in [s.p] && s.p in [s.p] + Nodes(s.far);
  }

  lemma Regroup(a: seq<SplayNode>, b: seq<SplayNode>, c: seq<SplayNode>, e: seq<SplayNode>, f: seq<SplayNode>)
    ensures a + (b + c + e) + f == a + b + (c + e + f)
    ensures a + (b + c + e) + f == a + (b + c) + e + f
    ensures a + (b + c + e) + f == (a + b) + c + (e + f)
    ensures a + b + (c + e + f) == (a + b + c) + e + f
  {
  }

  // ----- rotations at the root -----

  function RightTurned(t: Tree): Tree
    requires t.Node? && t.left.Node?
  {
    Node(t.left.left, t.left.p, Node(t.left.right, t.p, t.right))
  }

  function LeftTurned(t: Tree): Tree
    requires t.Node? && t.right.Node?
  {
    Node(Node(t.left, t.p, t.right.left), t.right.p, t.right.right)
  }

  lemma TurnsKeepNodes(t: Tree)
    requires t.Node?
    ensures t.left.Node? ==> Nodes(RightTurned(t)) == Nodes(t)
    ensures t.right.Node? ==> Nodes(LeftTurned(t)) == Nodes(t)
  {
    if t.left.Node? {
      Regroup(Nodes(t.left.left), [t.left.p], Nodes(t.left.right), [t.p], Nodes(t.right));
      assert Nodes(t.left) == Nodes(t.left.left) + [t.left.p] + Nodes(t.left.right);
    }
    if t.right.Node? {
      Regroup(Nodes(t.left), [t.p], Nodes(t.right.left), [t.right.p], Nodes(t.right.right));
      assert Nodes(t.right) == Nodes(t.right.left) + [t.right.p] + Nodes(t.right.right);
    }
  }

  lemma TurnedRight(m: Mem, d: SplayNode, l: Side, mid: Tree, r: Side)
    requires Splaying(m, d, l, mid, r) && mid.left.Node?
    ensures mid.p in m && mid.left.p in m
    ensures var m' := SetRight(SetLeft(m, mid.p, m[mid.left.p].right), mid.left.p, mid.p);
            Splaying(m', d, l, RightTurned(mid), r) && All(l, RightTurned(mid), r) == All(l, mid, r)
  {
    hide Nodes, LeftNodes, RightNodes, Distinct;
    assert Holds(m, mid.left);
    var m' := SetRight(SetLeft(m, mid.p, m[mid.left.p].right), mid.left.p, mid.p);
    PartsApart(d, l, mid, r);
    RootApart(mid);
    RootApart(mid.left);
    PartsOf(mid);
    PartsOf(mid.left);
    TurnsKeepNodes(mid);
    HoldsFrame(m, m', mid.right);
    HoldsFrame(m, m', mid.left.left);
    HoldsFrame(m, m', mid.left.right);
    LeftWhole(m, m', d, l);
    RightWhole(m, m', d, r);
    assert Holds(m', Node(mid.left.right, mid.p, mid.right));
  }

  lemma TurnedLeft(m: Mem, d: SplayNode, l: Side, mid: Tree, r: Side)
    requires Splaying(m, d, l, mid, r) && mid.right.Node?
    ensures mid.p in m && mid.right.p in m
    ensures var m' := SetLeft(SetRight(m, mid.p, m[mid.right.p].left), mid.right.p, mid.p);
            Splaying(m', d, l, LeftTurned(mid), r) && All(l, LeftTurned(mid), r) == All(l, mid, r)
  {
    hide Nodes, LeftNodes, RightNodes, Distinct;
    assert Holds(m, mid.right);
    var m' := SetLeft(SetRight(m, mid.p, m[mid.right.p].left), mid.right.p, mid.p);
    PartsApart(d, l, mid, r);
    RootApart(mid);
    RootApart(mid.right);
    PartsOf(mid);
    PartsOf(mid.right);
    TurnsKeepNodes(mid);
    HoldsFrame(m, m', mid.left);
    HoldsFrame(m, m', mid.right.left);
    HoldsFrame(m, m', mid.right.right);
    LeftWhole(m, m', d, l);
    RightWhole(m, m', d, r);
    assert Holds(m', Node(mid.left, mid.p, mid.right.left));
  }

  // ----- passing the root on to a side -----

  /** Either way the nodes stay in order. */
  lemma AllPassed(l: Side, mid: Tree, r: Side)
    requires mid.Node?
    ensures All(l, mid.left, Hung(r, mid.p, mid.right)) == All(l, mid, r) == All(Hung(l, mid.p, mid.left), mid.right, r)
  {
    Regroup(LeftNodes(l), Nodes(mid.left), [mid.p], Nodes(mid.right), RightNodes(r));
  }

  /** The root and what is right of it go to the right side. */
  lemma PassedRight(m: Mem, d: SplayNode, l: Side, mid: Tree, r: Side)
    requires Splaying(m, d, l, mid, r) && mid.left.Node?
    ensures Last(d, r) in m
    ensures var r' := Hung(r, mid.p, mid.right);
            Splaying(SetLeft(m, Last(d, r), mid.p), d, l, mid.left, r') && All(l, mid.left, r') == All(l, mid, r)
  {
    hide Nodes, LeftNodes, RightNodes, Distinct, All;
    PartsApart(d, l, mid, r);
    RootApart(mid);
    LastInRight(d, r);
    assert Last(d, r) in m;
    var m' := SetLeft(m, Last(d, r), mid.p);
    PartsOf(mid);
    if r.Hung? {
      RightEdge(d, r);
    }
    AllPassed(l, mid, r);
    HoldsFrame(m, m', mid.left);
    HoldsFrame(m, m', mid.right);
    LeftWhole(m, m', d, l);
    RightFrame(m, m', d, r);
  }

  /** The root and what is left of it go to the left side. */
  lemma PassedLeft(m: Mem, d: SplayNode, l: Side, mid: Tree, r: Side)
    requires Splaying(m, d, l, mid, r) && mid.right.Node?
    ensures Last(d, l) in m
    ensures var l' := Hung(l, mid.p, mid.left);
            Splaying(SetRight(m, Last(d, l), mid.p), d, l', mid.right, r) && All(l', mid.right, r) == All(l, mid, r)
  {
    hide Nodes, LeftNodes, RightNodes, Distinct, All;
    PartsApart(d, l, mid, r);
    RootApart(mid);
    LastInLeft(d, l);
    assert Last(d, l) in m;
    var m' := SetRight(m, Last(d, l), mid.p);
    PartsOf(mid);
    if l.Hung? {
      LeftEdge(d, l);
    }
    AllPassed(l, mid, r);
    HoldsFrame(m, m', mid.left);
    HoldsFrame(m, m', mid.right);
    RightWhole(m, m', d, r);
    LeftFrame(m, m', d, l);
  }

  // ----- putting the parts together -----

  function Assembled(l: Side, mid: Tree, r: Side): Tree
    requires mid.Node?
  {
    Node(JoinLeft(l, mid.left), mid.p, JoinRight(r, mid.right))
  }

  function AssembledMem(m: Mem, d: SplayNode, l: Side, mid: Tree, r: Side): Mem
    requires mid.Node? && d in m && mid.p in m && Last(d, l) in m && Last(d, r) in m
  {
    var m2 := SetLeft(SetRight(m, Last(d, l), m[mid.p].left), Last(d, r), m[mid.p].right);
    SetRight(SetLeft(m2, mid.p, m2[d].right), mid.p, m2[d].left)
  }

  lemma {:induction false} JoinNodes(s: Side, t: Tree)
    ensures Nodes(JoinLeft(s, t)) == LeftNodes(s) + Nodes(t)
    decreases s
  {
    if s.Hung? {
      JoinNodes(s.rest, Node(s.far, s.p, t));
      Assoc(LeftNodes(s.rest), Nodes(s.far) + [s.p], Nodes(t));
    }
  }

  lemma {:induction false} JoinNodesRight(s: Side, t: Tree)
    ensures Nodes(JoinRight(s, t)) == Nodes(t) + RightNodes(s)
    decreases s
  {
    if s.Hung? {
      JoinNodesRight(s.rest, Node(t, s.p, s.far));
      Assoc(Nodes(t), [s.p], Nodes(s.far));
      Assoc(Nodes(t), [s.p] + Nodes(s.far), RightNodes(s.rest));
    }
  }

  lemma AssembledNodes(l: Side, mid: Tree, r: Side)
    requires mid.Node?
    ensures Nodes(Assembled(l, mid, r)) == All(l, mid, r)
  {
    Regroup(LeftNodes(l), Nodes(mid.left), [mid.p], Nodes(mid.right), RightNodes(r));
    JoinNodes(l, mid.left);
    JoinNodesRight(r, mid.right);
    var a, b := JoinLeft(l, mid.left), JoinRight(r, mid.right);
    assert Nodes(Node(a, mid.p, b)) == Nodes(a) + [mid.p] + Nodes(b);
  }

  lemma Assembles(m: Mem, d: SplayNode, l: Side, mid: Tree, r: Side)
    requires Splaying(m, d, l, mid, r)
    ensures mid.p in m && Last(d, l) in m && Last(d, r) in m
    ensures Holds(AssembledMem(m, d, l, mid, r), Assembled(l, mid, r))
    ensures Nodes(Assembled(l, mid, r)) == All(l, mid, r)
  {
    hide Nodes, LeftNodes, RightNodes, Distinct, JoinLeft, JoinRight;
    PartsApart(d, l, mid, r);
    RootApart(mid);
    LastInLeft(d, l);
    LastInRight(d, r);
    PartsOf(mid);
    AssembledNodes(l, mid, r);
    JoinNodes(l, mid.left);
    JoinNodesRight(r, mid.right);
    var m2 := SetLeft(SetRight(m, Last(d, l), m[mid.p].left), Last(d, r), m[mid.p].right);
    SidesStillHold(m, m2, d, l, r);
    HoldsFrame(m, m2, mid.left);
    HoldsFrame(m, m2, mid.right);
    JoinLeftHolds(m2, d, l, mid.left);
    JoinRightHolds(m2, d, r, mid.right);
    var m4 := AssembledMem(m, d, l, mid, r);
    HoldsFrame(m2, m4, JoinLeft(l, mid.left));
    HoldsFrame(m2, m4, JoinRight(r, mid.right));
  }

  lemma SidesStillHold(m: Mem, m2: Mem, d: SplayNode, l: Side, r: Side)
    requires LeftHolds(m, d, l) && RightHolds(m, d, r) && d in m && Last(d, l) in m && Last(d, r) in m
    requires Distinct(LeftNodes(l)) && Distinct(RightNodes(r)) && d !in LeftNodes(l) && d !in RightNodes(r)
    requires forall p :: p in LeftNodes(l) ==> p !in RightNodes(r)
    requires exists x, y :: m2 == SetLeft(SetRight(m, Last(d, l), x), Last(d, r), y)
    ensures LeftHolds(m2, d, l) && RightHolds(m2, d, r)
  {
    LastInLeft(d, l);
    LastInRight(d, r);
    if l.Hung? {
      LeftEdge(d, l);
    }
    if r.Hung? {
      RightEdge(d, r);
    }
    LeftFrame(m, m2, d, l);
    RightFrame(m, m2, d, r);
  }
}
