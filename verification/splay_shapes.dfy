/** The shapes of a top-down splay: the middle tree, and the two side trees that take over what has
    been passed, hanging from one auxiliary node. */
module SplayShapes {
  class SplayNode {
    const key: int
    var left: SplayNode?
    var right: SplayNode?

    constructor (key: int)
      ensures this.key == key && left == null && right == null
    {
      this.key := key;
      left, right := null, null;
    }
  }

  datatype Links = Links(left: SplayNode?, right: SplayNode?)

  type Mem = map<SplayNode, Links>

  datatype Tree = Leaf | Node(left: Tree, p: SplayNode, right: Tree)

  function RootOf(t: Tree): SplayNode? { if t.Leaf? then null else t.p }

  /** The nodes in order. */
  function Nodes(t: Tree): seq<SplayNode> {
    if t.Leaf? then [] else Nodes(t.left) + [t.p] + Nodes(t.right)
  }

  /** The pointers form the tree. */
  ghost predicate Holds(m: Mem, t: Tree) {
    t.Node? ==>
      && t.p in m && m[t.p] == Links(RootOf(t.left), RootOf(t.right))
      && Holds(m, t.left) && Holds(m, t.right)
  }

  function SetLeft(m: Mem, p: SplayNode, x: SplayNode?): Mem
    requires p in m
  {
    m[p := m[p].(left := x)]
  }

  function SetRight(m: Mem, p: SplayNode, x: SplayNode?): Mem
    requires p in m
  {
    m[p := m[p].(right := x)]
  }

  ghost predicate Agree(m: Mem, m': Mem, ps: seq<SplayNode>) {
    forall p :: p in ps && p in m ==> p in m' && m'[p] == m[p]
  }

  lemma {:induction false} HoldsFrame(m: Mem, m': Mem, t: Tree)
    requires Holds(m, t) && Agree(m, m', Nodes(t))
    ensures Holds(m', t)
  {
    if t.Node? {
      HoldsFrame(m, m', t.left);
      HoldsFrame(m, m', t.right);
    }
  }

  /** A side tree, by the nodes along its inner edge and what hangs on their far side. */
  datatype Side = Bare | Hung(rest: Side, p: SplayNode, far: Tree)

  /** Where the next piece is linked. */
  function Last(d: SplayNode, s: Side): SplayNode { if s.Bare? then d else s.p }

  function LeftNodes(s: Side): seq<SplayNode> {
    if s.Bare? then [] else LeftNodes(s.rest) + (Nodes(s.far) + [s.p])
  }

  function RightNodes(s: Side): seq<SplayNode> {
    if s.Bare? then [] else [s.p] + Nodes(s.far) + RightNodes(s.rest)
  }

  /** The left tree hangs from the right pointer of the auxiliary node; its last node's right pointer is
      still to be set. */
  ghost predicate LeftHolds(m: Mem, d: SplayNode, s: Side) {
    s.Hung? ==>
      && LeftHolds(m, d, s.rest) && Last(d, s.rest) in m && m[Last(d, s.rest)].right == s.p
      && s.p in m && m[s.p].left == RootOf(s.far) && Holds(m, s.far)
  }

  ghost predicate RightHolds(m: Mem, d: SplayNode, s: Side) {
    s.Hung? ==>
      && RightHolds(m, d, s.rest) && Last(d, s.rest) in m && m[Last(d, s.rest)].left == s.p
      && s.p in m && m[s.p].right == RootOf(s.far) && Holds(m, s.far)
  }

  /** Only the pointer where the next piece is linked may change. */
  lemma {:induction false} LeftFrame(m: Mem, m': Mem, d: SplayNode, s: Side)
    requires LeftHolds(m, d, s) && d in m && d in m' && (s.Hung? ==> m'[d].right == m[d].right)
    requires forall p :: p in LeftNodes(s) && p in m && p != Last(d, s) ==> p in m' && m'[p] == m[p]
    requires s.Hung? ==> s.p in m' && m'[s.p].left == m[s.p].left && s.p !in Nodes(s.far) && s.p !in LeftNodes(s.rest)
    ensures LeftHolds(m', d, s)
  {
    if s.Hung? {
      assert forall p :: p in LeftNodes(s.rest) ==> p in LeftNodes(s);
      assert forall p :: p in Nodes(s.far) ==> p in LeftNodes(s);
      HoldsFrame(m, m', s.far);
      LeftWhole(m, m', d, s.rest);
      if s.rest.Hung? {
        assert s.rest.p in LeftNodes(s.rest);
      }
    }
  }

  lemma {:induction false} LeftWhole(m: Mem, m': Mem, d: SplayNode, s: Side)
    requires LeftHolds(m, d, s) && d in m && d in m' && (s.Hung? ==> m'[d].right == m[d].right)
    requires Agree(m, m', LeftNodes(s))
    ensures LeftHolds(m', d, s)
  {
    if s.Hung? {
      assert forall p :: p in LeftNodes(s.rest) ==> p in LeftNodes(s);
      assert forall p :: p in Nodes(s.far) ==> p in LeftNodes(s);
      assert s.p in LeftNodes(s);
      HoldsFrame(m, m', s.far);
      LeftWhole(m, m', d, s.rest);
      if s.rest.Hung? {
        assert s.rest.p in LeftNodes(s.rest);
      }
    }
  }

  lemma {:induction false} RightFrame(m: Mem, m': Mem, d: SplayNode, s: Side)
    requires RightHolds(m, d, s) && d in m && d in m' && (s.Hung? ==> m'[d].left == m[d].left)
    requires forall p :: p in RightNodes(s) && p in m && p != Last(d, s) ==> p in m' && m'[p] == m[p]
    requires s.Hung? ==>
               s.p in m' && m'[s.p].right == m[s.p].right && s.p !in Nodes(s.far) && s.p !in RightNodes(s.rest)
    ensures RightHolds(m', d, s)
  {
    if s.Hung? {
      assert forall p :: p in RightNodes(s.rest) ==> p in RightNodes(s);
      assert forall p :: p in Nodes(s.far) ==> p in RightNodes(s);
      HoldsFrame(m, m', s.far);
      RightWhole(m, m', d, s.rest);
      if s.rest.Hung? {
        assert s.rest.p in RightNodes(s.rest);
      }
    }
  }

  lemma {:induction false} RightWhole(m: Mem, m': Mem, d: SplayNode, s: Side)
    requires RightHolds(m, d, s) && d in m && d in m' && (s.Hung? ==> m'[d].left == m[d].left)
    requires Agree(m, m', RightNodes(s))
    ensures RightHolds(m', d, s)
  {
    if s.Hung? {
      assert forall p :: p in RightNodes(s.rest) ==> p in RightNodes(s);
      assert forall p :: p in Nodes(s.far) ==> p in RightNodes(s);
      assert s.p in RightNodes(s);
      HoldsFrame(m, m', s.far);
      RightWhole(m, m', d, s.rest);
      if s.rest.Hung? {
        assert s.rest.p in RightNodes(s.rest);
      }
    }
  }

  // ----- joining a side with what goes on its inner edge -----

  function JoinLeft(s: Side, t: Tree): Tree
    decreases s
  {
    if s.Bare? then t else JoinLeft(s.rest, Node(s.far, s.p, t))
  }

  function JoinRight(s: Side, t: Tree): Tree
    decreases s
  {
    if s.Bare? then t else JoinRight(s.rest, Node(t, s.p, s.far))
  }

  lemma {:induction false} JoinLeftHolds(m: Mem, d: SplayNode, s: Side, t: Tree)
    requires LeftHolds(m, d, s) && Last(d, s) in m && m[Last(d, s)].right == RootOf(t) && Holds(m, t)
    ensures Holds(m, JoinLeft(s, t)) && d in m && m[d].right == RootOf(JoinLeft(s, t))
    decreases s
  {
    if s.Hung? {
      JoinLeftHolds(m, d, s.rest, Node(s.far, s.p, t));
    }
  }

  lemma {:induction false} JoinRightHolds(m: Mem, d: SplayNode, s: Side, t: Tree)
    requires RightHolds(m, d, s) && Last(d, s) in m && m[Last(d, s)].left == RootOf(t) && Holds(m, t)
    ensures Holds(m, JoinRight(s, t)) && d in m && m[d].left == RootOf(JoinRight(s, t))
    decreases s
  {
    if s.Hung? {
      JoinRightHolds(m, d, s.rest, Node(t, s.p, s.far));
    }
  }

  // ----- the state of a splay -----

  ghost predicate Distinct(ps: seq<SplayNode>) {
    forall i, j :: 0 <= i < j < |ps| ==> ps[i] != ps[j]
  }

  function All(l: Side, mid: Tree, r: Side): seq<SplayNode> { LeftNodes(l) + Nodes(mid) + RightNodes(r) }

  ghost predicate Splaying(m: Mem, d: SplayNode, l: Side, mid: Tree, r: Side) {
    && mid.Node? && d in m && Holds(m, mid) && LeftHolds(m, d, l) && RightHolds(m, d, r)
    && d !in All(l, mid, r) && Distinct(All(l, mid, r))
  }

  lemma DistinctParts(a: seq<SplayNode>, b: seq<SplayNode>)
    requires Distinct(a + b)
    ensures Distinct(a) && Distinct(b) && forall p :: p in a ==> p !in b
  {
    forall i, j | 0 <= i < j < |a| ensures a[i] != a[j] {
      assert (a + b)[i] == a[i] && (a + b)[j] == a[j];
    }
    forall i, j | 0 <= i < j < |b| ensures b[i] != b[j] {
      assert (a + b)[|a| + i] == b[i] && (a + b)[|a| + j] == b[j];
    }
    forall p | p in a ensures p !in b {
      var i :| 0 <= i < |a| && a[i] == p;
      assert (a + b)[i] == p;
      assert forall j :: 0 <= j < |b| ==> b[j] == (a + b)[|a| + j];
    }
  }
}
