/** Which node follows which on each level of a skip list, given the levels of the nodes in order.
    Position 0 is the head, which is on every level. */
module SkipLevels {
  /** The next position after `j` whose node is on level `i`, or the end. */
  function NextIdx(lvs: seq<nat>, j: nat, i: nat): (r: nat)
    requires j < |lvs|
    ensures j < r <= |lvs| && (r < |lvs| ==> lvs[r] > i)
    ensures forall q :: j < q < r ==> lvs[q] <= i
    decreases |lvs| - j
  {
    if j + 1 == |lvs| || lvs[j + 1] > i then j + 1 else NextIdx(lvs, j + 1, i)
  }

  /** These properties determine it. */
  lemma {:induction false} NextIs(lvs: seq<nat>, j: nat, i: nat, r: nat)
    requires j < r <= |lvs| && (r < |lvs| ==> lvs[r] > i)
    requires forall q :: j < q < r ==> lvs[q] <= i
    ensures NextIdx(lvs, j, i) == r
    decreases |lvs| - j
  {
    if j + 1 < r {
      NextIs(lvs, j + 1, i, r);
    }
  }

  /** `u` is the last position before `pos` on level `i`. */
  predicate IsPrev(lvs: seq<nat>, pos: nat, i: nat, u: nat) {
    u < pos <= |lvs| && lvs[u] > i && forall q :: u < q < pos ==> lvs[q] <= i
  }

  function Insert<T>(s: seq<T>, pos: nat, x: T): (r: seq<T>)
    requires pos <= |s|
    ensures |r| == |s| + 1
    ensures forall q :: 0 <= q < |r| ==> r[q] == if q < pos then s[q] else if q == pos then x else s[q - 1]
  {
    s[..pos] + [x] + s[pos..]
  }

  lemma InsertedAt<T>(s: seq<T>, pos: nat, x: T, q: nat)
    requires pos <= |s|
    ensures |Insert(s, pos, x)| == |s| + 1
    ensures q <= |s| ==> Insert(s, pos, x)[q] == if q < pos then s[q] else if q == pos then x else s[q - 1]
  {
  }

  function Remove<T>(s: seq<T>, pos: nat): (r: seq<T>)
    requires pos < |s|
    ensures |r| == |s| - 1
    ensures forall q :: 0 <= q < |r| ==> r[q] == if q < pos then s[q] else s[q + 1]
  {
    s[..pos] + s[pos + 1..]
  }

  /** A position seen after an insertion at `pos`. */
  function Shift(q: nat, pos: nat): nat { if q < pos then q else q + 1 }

  /** After inserting a node of level `lv` at `pos`: the successors of an old node on one of its
      levels.  Only the last node before `pos` on a level of the new node sees it. */
  lemma NextAfterInsert(lvs: seq<nat>, pos: nat, lv: nat, j: nat, i: nat, u: nat)
    requires j < |lvs| && pos <= |lvs| && lvs[j] > i && IsPrev(lvs, pos, i, u)
    ensures NextIdx(Insert(lvs, pos, lv), Shift(j, pos), i)
         == if j == u && lv > i then pos else Shift(NextIdx(lvs, j, i), pos)
  {
    hide NextIdx;
    var lvs', r := Insert(lvs, pos, lv), NextIdx(lvs, j, i);
    var r' := if j == u && lv > i then pos else Shift(r, pos);
    if j < u {
      assert r <= u;
    }
    forall q | Shift(j, pos) < q < r' ensures lvs'[q] <= i {
      if q < pos {
        assert lvs'[q] == lvs[q];
      } else if q > pos {
        assert lvs'[q] == lvs[q - 1];
      } else {
        assert j < pos <= r;
        assert j == u;
      }
    }
    NextIs(lvs', Shift(j, pos), i, r');
  }

  /** The new node's own successors are those of the last nodes before it. */
  lemma NextOfInserted(lvs: seq<nat>, pos: nat, lv: nat, i: nat, u: nat)
    requires pos <= |lvs| && IsPrev(lvs, pos, i, u)
    ensures NextIdx(Insert(lvs, pos, lv), pos, i) == Shift(NextIdx(lvs, u, i), pos) > pos
  {
    var lvs', r := Insert(lvs, pos, lv), NextIdx(lvs, u, i);
    assert r >= pos;
    forall q | pos < q < r + 1 ensures lvs'[q] <= i {
      assert lvs'[q] == lvs[q - 1];
    }
    NextIs(lvs', pos, i, r + 1);
  }

  /** A position seen after a removal at `pos`. */
  function Unshift(q: nat, pos: nat): nat
    requires q != pos
  {
    if q < pos then q else q - 1
  }

  /** After removing the node at `pos`: whoever saw it sees its successor. */
  lemma NextAfterRemove(lvs: seq<nat>, pos: nat, j: nat, i: nat)
    requires 0 < pos < |lvs| && j < |lvs| && j != pos && lvs[j] > i
    ensures NextIdx(Remove(lvs, pos), Unshift(j, pos), i)
         == if NextIdx(lvs, j, i) == pos then NextIdx(lvs, pos, i) - 1 else Unshift(NextIdx(lvs, j, i), pos)
  {
    hide NextIdx;
    var lvs', r := Remove(lvs, pos), NextIdx(lvs, j, i);
    var s := NextIdx(lvs, pos, i);
    var r' := if r == pos then s - 1 else Unshift(r, pos);
    forall q | Unshift(j, pos) < q < r' ensures lvs'[q] <= i {
      if q < pos {
        assert lvs'[q] == lvs[q];
      } else {
        assert lvs'[q] == lvs[q + 1];
      }
    }
    NextIs(lvs', Unshift(j, pos), i, r');
  }

  /** The positions met on level `i` by following pointers from position `j`. */
  ghost function OnLevel(lvs: seq<nat>, j: nat, i: nat): seq<nat>
    requires j < |lvs|
    decreases |lvs| - j
  {
    var r := NextIdx(lvs, j, i);
    if r == |lvs| then [] else [r] + OnLevel(lvs, r, i)
  }

  /** They are exactly the later nodes of a level above `i`, each once and in order; so each level is
      a subsequence of the one below, and a node is met on exactly its own levels. */
  lemma {:induction false} LevelIs(lvs: seq<nat>, j: nat, i: nat)
    requires j < |lvs|
    ensures forall q :: q in OnLevel(lvs, j, i) <==> j < q < |lvs| && lvs[q] > i
    ensures forall a, b :: 0 <= a < b < |OnLevel(lvs, j, i)| ==> OnLevel(lvs, j, i)[a] < OnLevel(lvs, j, i)[b]
    decreases |lvs| - j
  {
    var r := NextIdx(lvs, j, i);
    if r < |lvs| {
      LevelIs(lvs, r, i);
      var rest := OnLevel(lvs, r, i);
      assert OnLevel(lvs, j, i) == [r] + rest;
      forall b | 0 <= b < |rest| ensures r < rest[b] {
        assert rest[b] in rest;
      }
    }
  }
}
