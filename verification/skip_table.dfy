/** The skip-list engine of the key-value store: nodes with a forward pointer per level, relinked in
    place, for every choice of random levels. */
module SkipTable {
  import opened Options
  import opened StrOrder
  import opened Dict
  import opened SkipLevels

  const MAX_LEVEL: nat := 16

  class SkipNode {
    var key: string
    var value: string
    var level: nat
    /** The array `forward[]` inside the node. */
    var forward: seq<SkipNode?>

    constructor (key: string, value: string, level: nat)
      ensures this.key == key && this.value == value && this.level == level
      ensures forward == seq(MAX_LEVEL, _ => null)
    {
      this.key, this.value, this.level := key, value, level;
      forward := seq(MAX_LEVEL, _ => null);
    }
  }

  ghost predicate Distinct(row: seq<SkipNode>) {
    forall i, j :: 0 <= i < j < |row| ==> row[i] != row[j]
  }

  ghost function At(row: seq<SkipNode>, q: nat): SkipNode? {
    if q < |row| then row[q] else null
  }

  /** On each of its levels a node points at the next node of that level, so level `i` is the
      subsequence of the nodes higher than `i`. */
  ghost predicate Links(row: seq<SkipNode>, lvs: seq<nat>, f: seq<seq<SkipNode?>>) {
    && |row| == |lvs| == |f|
    && (forall j :: 0 <= j < |lvs| ==> lvs[j] <= MAX_LEVEL == |f[j]|)
    && forall j, i :: 0 <= j < |lvs| && 0 <= i < lvs[j] ==> f[j][i] == At(row, NextIdx(lvs, j, i))
  }

  /** The last nodes before `pos` on every level. */
  ghost predicate Prevs(lvs: seq<nat>, pos: nat, idx: seq<nat>) {
    |idx| == MAX_LEVEL && forall i :: 0 <= i < MAX_LEVEL ==> IsPrev(lvs, pos, i, idx[i])
  }

  /** The pointers after `x` was put behind the last nodes before it, on its first `lv` levels. */
  ghost predicate PutBehind(f: seq<seq<SkipNode?>>, f': seq<seq<SkipNode?>>, idx: seq<nat>, lv: nat, x: SkipNode?)
    requires |idx| == MAX_LEVEL
  {
    && |f'| == |f| && (forall j :: 0 <= j < |f| ==> |f'[j]| == |f[j]| == MAX_LEVEL)
    && forall j, i :: 0 <= j < |f| && 0 <= i < MAX_LEVEL ==>
         f'[j][i] == if i < lv && j == idx[i] then x else f[j][i]
  }

  /** The pointers after the last nodes before `pos` took over those of the node at `pos`, on its `lv` levels. */
  ghost predicate TookOut(f: seq<seq<SkipNode?>>, f': seq<seq<SkipNode?>>, idx: seq<nat>, lv: nat, pos: nat)
    requires |idx| == MAX_LEVEL
  {
    && pos < |f'| == |f| && (forall j :: 0 <= j < |f| ==> |f'[j]| == |f[j]| == MAX_LEVEL)
    && forall j, i :: 0 <= j < |f| && 0 <= i < MAX_LEVEL ==>
         f'[j][i] == if i < lv && j == idx[i] then f[pos][i] else f[j][i]
  }

  lemma PutStep(f: seq<seq<SkipNode?>>, f': seq<seq<SkipNode?>>, idx: seq<nat>, i: nat, x: SkipNode?)
    requires |idx| == MAX_LEVEL && PutBehind(f, f', idx, i, x) && i < MAX_LEVEL && idx[i] < |f|
    ensures |f'| == |f| && |f'[idx[i]]| == |f[idx[i]]| == MAX_LEVEL && f'[idx[i]][i] == f[idx[i]][i]
    ensures PutBehind(f, f'[idx[i] := f'[idx[i]][i := x]], idx, i + 1, x)
  {
  }

  lemma PutNone(f: seq<seq<SkipNode?>>, idx: seq<nat>, x: SkipNode?)
    requires |idx| == MAX_LEVEL && forall j :: 0 <= j < |f| ==> |f[j]| == MAX_LEVEL
    ensures PutBehind(f, f, idx, 0, x)
  {
  }

  lemma TookNone(f: seq<seq<SkipNode?>>, idx: seq<nat>, pos: nat)
    requires |idx| == MAX_LEVEL && pos < |f| && forall j :: 0 <= j < |f| ==> |f[j]| == MAX_LEVEL
    ensures TookOut(f, f, idx, 0, pos)
  {
  }

  lemma LengthsOf(f: seq<seq<SkipNode?>>, f': seq<seq<SkipNode?>>, idx: seq<nat>, lv: nat, pos: nat)
    requires |idx| == MAX_LEVEL && TookOut(f, f', idx, lv, pos)
    ensures |f'| == |f| && forall j :: 0 <= j < |f| ==> |f'[j]| == |f[j]| == MAX_LEVEL
  {
  }

  lemma TakeOutStep(f: seq<seq<SkipNode?>>, f': seq<seq<SkipNode?>>, idx: seq<nat>, i: nat, pos: nat)
    requires |idx| == MAX_LEVEL && TookOut(f, f', idx, i, pos) && i < MAX_LEVEL && idx[i] < pos
    ensures f'[pos][i] == f[pos][i] && f'[idx[i]][i] == f[idx[i]][i]
    ensures TookOut(f, f'[idx[i] := f'[idx[i]][i := f[pos][i]]], idx, i + 1, pos)
  {
  }

  /** Linking a node in at `pos` on its own levels. */
  lemma InsertLinks(row: seq<SkipNode>, lvs: seq<nat>, f: seq<seq<SkipNode?>>, f': seq<seq<SkipNode?>>,
                    pos: nat, idx: seq<nat>, x: SkipNode, lv: nat, g: seq<SkipNode?>)
    requires Links(row, lvs, f) && 0 < pos <= |lvs| && Prevs(lvs, pos, idx) && lv <= MAX_LEVEL
    requires PutBehind(f, f', idx, lv, x)
    requires |g| == MAX_LEVEL && forall i :: 0 <= i < lv ==> g[i] == f[idx[i]][i]
    ensures Links(Insert(row, pos, x), Insert(lvs, pos, lv), Insert(f', pos, g))
  {
    var row2, lvs2, f2 := Insert(row, pos, x), Insert(lvs, pos, lv), Insert(f', pos, g);
    forall j, i | 0 <= j < |lvs2| && 0 <= i < lvs2[j] ensures f2[j][i] == At(row2, NextIdx(lvs2, j, i)) {
      InsertLinkAt(row, lvs, f, f', pos, idx, x, lv, g, j, i);
    }
  }

  lemma InsertLinkAt(row: seq<SkipNode>, lvs: seq<nat>, f: seq<seq<SkipNode?>>, f': seq<seq<SkipNode?>>,
                     pos: nat, idx: seq<nat>, x: SkipNode, lv: nat, g: seq<SkipNode?>, j: nat, i: nat)
    requires Links(row, lvs, f) && 0 < pos <= |lvs| && Prevs(lvs, pos, idx) && lv <= MAX_LEVEL
    requires PutBehind(f, f', idx, lv, x)
    requires |g| == MAX_LEVEL && forall i :: 0 <= i < lv ==> g[i] == f[idx[i]][i]
    requires j < |Insert(lvs, pos, lv)| && i < Insert(lvs, pos, lv)[j]
    ensures var f2 := Insert(f', pos, g);
            j < |f2| && i < |f2[j]| && f2[j][i] == At(Insert(row, pos, x), NextIdx(Insert(lvs, pos, lv), j, i))
  {
    hide Links, Prevs, PutBehind, NextIdx, At, Insert;
    PrevsFacts(lvs, pos, idx);
    Sizes(row, lvs, f, f', idx, lv, x);
    InsertedAt(lvs, pos, lv, j);
    InsertedAt(f', pos, g, j);
    if j == pos {
      NewLink(row, lvs, f, pos, idx, x, lv, g, i);
    } else {
      OldLink(row, lvs, f, f', pos, idx, x, lv, if j < pos then j else j - 1, i);
    }
  }

  lemma Sizes(row: seq<SkipNode>, lvs: seq<nat>, f: seq<seq<SkipNode?>>, f': seq<seq<SkipNode?>>, idx: seq<nat>,
              lv: nat, x: SkipNode?)
    requires Links(row, lvs, f) && |idx| == MAX_LEVEL && PutBehind(f, f', idx, lv, x)
    ensures |row| == |lvs| == |f| == |f'|
    ensures forall j :: 0 <= j < |lvs| ==> lvs[j] <= MAX_LEVEL == |f'[j]|
  {
  }

  lemma NewLink(row: seq<SkipNode>, lvs: seq<nat>, f: seq<seq<SkipNode?>>, pos: nat, idx: seq<nat>, x: SkipNode,
                lv: nat, g: seq<SkipNode?>, i: nat)
    requires Links(row, lvs, f) && 0 < pos <= |lvs| && Prevs(lvs, pos, idx) && i < lv <= MAX_LEVEL
    requires |g| == MAX_LEVEL && forall i :: 0 <= i < lv ==> g[i] == f[idx[i]][i]
    ensures g[i] == At(Insert(row, pos, x), NextIdx(Insert(lvs, pos, lv), pos, i))
  {
    hide NextIdx, Insert;
    assert IsPrev(lvs, pos, i, idx[i]);
    NextOfInserted(lvs, pos, lv, i, idx[i]);
  }

  lemma OldLink(row: seq<SkipNode>, lvs: seq<nat>, f: seq<seq<SkipNode?>>, f': seq<seq<SkipNode?>>, pos: nat,
                idx: seq<nat>, x: SkipNode, lv: nat, j: nat, i: nat)
    requires Links(row, lvs, f) && 0 < pos <= |lvs| && Prevs(lvs, pos, idx) && lv <= MAX_LEVEL
    requires PutBehind(f, f', idx, lv, x) && j < |lvs| && i < lvs[j]
    ensures f'[j][i] == At(Insert(row, pos, x), NextIdx(Insert(lvs, pos, lv), Shift(j, pos), i))
  {
    hide NextIdx, Insert;
    assert IsPrev(lvs, pos, i, idx[i]);
    NextAfterInsert(lvs, pos, lv, j, i, idx[i]);
    AtShift(row, pos, x, NextIdx(lvs, j, i));
    assert f[j][i] == At(row, NextIdx(lvs, j, i));
  }

  /** Unlinking the node at `pos` from its own levels. */
  lemma RemoveLinks(row: seq<SkipNode>, lvs: seq<nat>, f: seq<seq<SkipNode?>>, f': seq<seq<SkipNode?>>, pos: nat,
                    idx: seq<nat>)
    requires Links(row, lvs, f) && 0 < pos < |lvs| && Prevs(lvs, pos, idx)
    requires TookOut(f, f', idx, lvs[pos], pos)
    ensures Links(Remove(row, pos), Remove(lvs, pos), Remove(f', pos))
  {
    var row2, lvs2, f2 := Remove(row, pos), Remove(lvs, pos), Remove(f', pos);
    forall j, i | 0 <= j < |lvs2| && 0 <= i < lvs2[j] ensures f2[j][i] == At(row2, NextIdx(lvs2, j, i)) {
      hide Links, Prevs, TookOut, Remove, NextIdx, At;
      KeptLink(row, lvs, f, f', pos, idx, if j < pos then j else j + 1, i);
    }
  }

  lemma KeptLink(row: seq<SkipNode>, lvs: seq<nat>, f: seq<seq<SkipNode?>>, f': seq<seq<SkipNode?>>, pos: nat,
                 idx: seq<nat>, j: nat, i: nat)
    requires Links(row, lvs, f) && 0 < pos < |lvs| && Prevs(lvs, pos, idx) && TookOut(f, f', idx, lvs[pos], pos)
    requires j < |lvs| && j != pos && i < lvs[j]
    ensures f'[j][i] == At(Remove(row, pos), NextIdx(Remove(lvs, pos), Unshift(j, pos), i))
  {
    hide NextIdx, Remove;
    NextAfterRemove(lvs, pos, j, i);
    assert IsPrev(lvs, pos, i, idx[i]);
    SeesNext(lvs, pos, j, i, idx[i]);
    if j == idx[i] && i < lvs[pos] {
      AtUnshift(row, pos, NextIdx(lvs, pos, i));
      assert f[pos][i] == At(row, NextIdx(lvs, pos, i));
    } else {
      AtUnshift(row, pos, NextIdx(lvs, j, i));
    }
    assert f[j][i] == At(row, NextIdx(lvs, j, i));
  }

  /** Only the last node before `pos` on a level of the node at `pos` points at it. */
  lemma SeesNext(lvs: seq<nat>, pos: nat, j: nat, i: nat, u: nat)
    requires j < |lvs| && pos < |lvs| && lvs[j] > i && IsPrev(lvs, pos, i, u)
    ensures NextIdx(lvs, j, i) == pos <==> lvs[pos] > i && j == u
  {
    if lvs[pos] > i && j == u {
      NextIs(lvs, j, i, pos);
    }
  }

  lemma AtShift(row: seq<SkipNode>, pos: nat, x: SkipNode, q: nat)
    requires pos <= |row|
    ensures At(Insert(row, pos, x), Shift(q, pos)) == At(row, q) && At(Insert(row, pos, x), pos) == x
  {
  }

  lemma AtUnshift(row: seq<SkipNode>, pos: nat, q: nat)
    requires pos < |row| && q != pos
    ensures At(Remove(row, pos), Unshift(q, pos)) == At(row, q)
  {
  }

  /** The table's level is that of its highest node, or one. */
  ghost predicate TopLevel(lvs: seq<nat>, level: nat)
  {
    && 1 <= level <= MAX_LEVEL
    && (forall j :: 1 <= j < |lvs| ==> lvs[j] <= level)
    && (level > 1 ==> exists j :: 1 <= j < |lvs| && lvs[j] == level)
  }

  lemma LevelRange(lvs: seq<nat>, level: nat)
    requires TopLevel(lvs, level)
    ensures 1 <= level <= MAX_LEVEL
  {
  }

  /** Exactly the keys before position `pos` are below `key`. */
  ghost predicate Splits(es: seq<Entry>, pos: nat, key: string)
  {
    1 <= pos <= |es| + 1 && forall e :: 0 <= e < |es| ==> (Less(es[e].key, key) <==> e < pos - 1)
  }

  /** Nothing on level `i` beyond `j` is below `key`; the node at `j` itself is, unless it is the head. */
  ghost predicate LastBelow(lvs: seq<nat>, es: seq<Entry>, j: nat, i: nat, key: string)
  {
    && |lvs| == |es| + 1 && j < |lvs| && lvs[j] > i
    && (j > 0 ==> Less(es[j - 1].key, key))
    && forall e :: j <= e < |es| && lvs[e + 1] > i ==> !Less(es[e].key, key)
  }

  lemma NoneBeyond(lvs: seq<nat>, es: seq<Entry>, j: nat, i: nat, key: string)
    requires Sorted(es) && j < |lvs| == |es| + 1 && lvs[j] > i && (j > 0 ==> Less(es[j - 1].key, key))
    requires var r := NextIdx(lvs, j, i); r < |lvs| ==> !Less(es[r - 1].key, key)
    ensures LastBelow(lvs, es, j, i, key)
  {
    var r := NextIdx(lvs, j, i);
    forall e | j <= e < |es| && lvs[e + 1] > i ensures !Less(es[e].key, key) {
      assert e + 1 >= r;
      if e + 1 > r && Less(es[e].key, key) {
        LessTrans(es[r - 1].key, es[e].key, key);
      }
    }
  }

  lemma SplitHere(lvs: seq<nat>, es: seq<Entry>, j: nat, key: string)
    requires Sorted(es) && LastBelow(lvs, es, j, 0, key) && forall i :: 0 <= i < |lvs| ==> lvs[i] >= 1
    ensures Splits(es, j + 1, key)
  {
    forall e | 0 <= e < |es| ensures Less(es[e].key, key) <==> e < j {
      if e < j - 1 {
        LessTrans(es[e].key, es[j - 1].key, key);
      }
      assert lvs[e + 1] > 0;
    }
  }

  lemma LeftBefore(lvs: seq<nat>, es: seq<Entry>, level: nat, pos: nat, i: nat, u: nat, key: string)
    requires |lvs| == |es| + 1 && lvs[0] == MAX_LEVEL && Splits(es, pos, key) && TopLevel(lvs, level) && u < pos
             && i < MAX_LEVEL
    requires if i < level then LastBelow(lvs, es, u, i, key) else u == 0
    ensures IsPrev(lvs, pos, i, u)
  {
    forall q | u < q < pos ensures lvs[q] <= i {
      if i < level {
        assert Less(es[q - 1].key, key);
      }
    }
  }

  lemma RevaluedEntries(es: seq<Entry>, n: nat, value: string)
    requires n < |es| && Sorted(es)
    ensures var es' := es[n := Entry(es[n].key, value)];
            Sorted(es') && AsMap(es') == AsMap(es)[es[n].key := value]
  {
    hide AsMap;
    var e, e' := es[n], Entry(es[n].key, value);
    assert es == es[..n] + [e] + es[n + 1..] && es[n := e'] == es[..n] + [e'] + es[n + 1..];
    SortedSplit(es[..n], e, es[n + 1..]);
    Between(es[..n], e, es[n + 1..]);
    Between(es[..n], e', es[n + 1..]);
  }

  /** The recorded nodes point at the node at `pos` on exactly its own levels. */
  lemma SeenBelow(row: seq<SkipNode>, lvs: seq<nat>, f: seq<seq<SkipNode?>>, pos: nat, idx: seq<nat>)
    requires Links(row, lvs, f) && 0 < pos < |row| && Prevs(lvs, pos, idx)
    requires Distinct(row)
    ensures |idx| == MAX_LEVEL && forall i :: 0 <= i < MAX_LEVEL ==>
              idx[i] < pos && (f[idx[i]][i] == row[pos] <==> lvs[pos] > i)
  {
    forall i | 0 <= i < MAX_LEVEL ensures idx[i] < pos && (f[idx[i]][i] == row[pos] <==> lvs[pos] > i) {
      assert IsPrev(lvs, pos, i, idx[i]);
      SeesNext(lvs, pos, idx[i], i, idx[i]);
      assert f[idx[i]][i] == At(row, NextIdx(lvs, idx[i], i));
    }
  }

  lemma InsertTop(lvs: seq<nat>, level: nat, pos: nat, lv: nat)
    requires TopLevel(lvs, level) && 0 < pos <= |lvs| && 1 <= lv <= MAX_LEVEL
    ensures TopLevel(Insert(lvs, pos, lv), if lv > level then lv else level)
  {
    var lvs2 := Insert(lvs, pos, lv);
    assert lvs2[pos] == lv;
    if level > 1 {
      var j :| 1 <= j < |lvs| && lvs[j] == level;
      assert lvs2[Shift(j, pos)] == level;
    }
  }

  lemma InsertEntry(es: seq<Entry>, n: nat, e: Entry)
    requires n <= |es| && Sorted(es) && Below(es[..n], e.key) && Above(e.key, es[n..])
    ensures Sorted(Insert(es, n, e)) && AsMap(Insert(es, n, e)) == AsMap(es)[e.key := e.value]
  {
    assert es == es[..n] + es[n..];
    Between(es[..n], e, es[n..]);
    SortedSplit(es[..n], e, es[n..]);
  }

  lemma RemoveEntry(es: seq<Entry>, n: nat)
    requires n < |es| && Sorted(es)
    ensures Sorted(Remove(es, n)) && AsMap(Remove(es, n)) == AsMap(es) - {es[n].key}
  {
    hide Sorted, AsMap;
    assert es == es[..n] + [es[n]] + es[n + 1..];
    RemovedEntries(es[..n], es[n], es[n + 1..]);
  }

  /** The head sees nothing on the top level: no node is that high. */
  lemma EmptyTop(row: seq<SkipNode>, lvs: seq<nat>, f: seq<seq<SkipNode?>>, level: nat)
    requires Links(row, lvs, f) && 1 < level <= MAX_LEVEL && |lvs| > 0 && lvs[0] == MAX_LEVEL
    requires f[0][level - 1] == null && forall j :: 1 <= j < |lvs| ==> lvs[j] <= level
    ensures forall j :: 1 <= j < |lvs| ==> lvs[j] <= level - 1
  {
    assert f[0][level - 1] == At(row, NextIdx(lvs, 0, level - 1));
    forall j | 1 <= j < |lvs| ensures lvs[j] <= level - 1 {
    }
  }

  /** The head sees a node on the top level: that node is of the table's level. */
  lemma FullTop(row: seq<SkipNode>, lvs: seq<nat>, f: seq<seq<SkipNode?>>, level: nat)
    requires Links(row, lvs, f) && 1 <= level <= MAX_LEVEL && |lvs| > 0 && lvs[0] == MAX_LEVEL
    requires level > 1 ==> f[0][level - 1] != null
    requires forall j :: 1 <= j < |lvs| ==> lvs[j] <= level
    ensures TopLevel(lvs, level)
  {
    if level > 1 {
      var j := NextIdx(lvs, 0, level - 1);
      assert f[0][level - 1] == At(row, j);
      assert lvs[j] == level;
    }
  }

  lemma InsertDistinct(row: seq<SkipNode>, pos: nat, node: SkipNode)
    requires Distinct(row) && pos <= |row| && node !in row
    ensures Distinct(Insert(row, pos, node))
  {
  }

  lemma RemoveDistinct(row: seq<SkipNode>, pos: nat)
    requires Distinct(row) && pos < |row|
    ensures Distinct(Remove(row, pos))
  {
  }

  /** The head and then the nodes in key order, with their levels and entries. */
  ghost predicate Shape(head: SkipNode, row: seq<SkipNode>, lvs: seq<nat>, es: seq<Entry>)
    reads row`key, row`value, row`level
  {
    && |row| == |lvs| == |es| + 1 && row[0] == head && lvs[0] == MAX_LEVEL
    && Distinct(row)
    && (forall j :: 0 <= j < |row| ==> row[j].level == lvs[j] && 1 <= lvs[j] <= MAX_LEVEL)
    && (forall j :: 0 <= j < |es| ==> row[j + 1].key == es[j].key && row[j + 1].value == es[j].value)
    && Sorted(es)
  }

  lemma ShapeFacts(head: SkipNode, row: seq<SkipNode>, lvs: seq<nat>, es: seq<Entry>)
    requires Shape(head, row, lvs, es)
    ensures |row| == |lvs| == |es| + 1 && row[0] == head && lvs[0] == MAX_LEVEL && Distinct(row)
    ensures forall j :: 0 <= j < |lvs| ==> 1 <= lvs[j] <= MAX_LEVEL
  {
  }

  lemma ShapeAt(head: SkipNode, row: seq<SkipNode>, lvs: seq<nat>, es: seq<Entry>, q: nat)
    requires Shape(head, row, lvs, es) && 0 < q < |row|
    ensures row[q].key == es[q - 1].key && row[q].value == es[q - 1].value
  {
  }

  lemma LinksFacts(row: seq<SkipNode>, lvs: seq<nat>, f: seq<seq<SkipNode?>>)
    requires Links(row, lvs, f)
    ensures |row| == |lvs| == |f| && forall j :: 0 <= j < |f| ==> |f[j]| == MAX_LEVEL
  {
  }

  lemma LinkHere(row: seq<SkipNode>, lvs: seq<nat>, f: seq<seq<SkipNode?>>, j: nat, i: nat)
    requires Links(row, lvs, f) && j < |lvs| && i < lvs[j]
    ensures |row| == |lvs| == |f| && i < |f[j]| && f[j][i] == At(row, NextIdx(lvs, j, i))
  {
  }

  lemma LastFacts(lvs: seq<nat>, es: seq<Entry>, j: nat, i: nat, key: string)
    requires LastBelow(lvs, es, j, i, key)
    ensures |lvs| == |es| + 1 && j < |lvs| && lvs[j] > i && (j > 0 ==> Less(es[j - 1].key, key))
  {
  }

  /** What a descent has recorded down to level `i`. */
  ghost predicate Recorded(update: seq<SkipNode?>, row: seq<SkipNode>, lvs: seq<nat>, es: seq<Entry>, level: nat,
                           idx: seq<nat>, i: nat, j: nat, key: string) {
    && |update| == |idx| == MAX_LEVEL && level <= MAX_LEVEL && j < |row| == |lvs|
    && (forall h :: i <= h < level ==> idx[h] <= j && LastBelow(lvs, es, idx[h], h, key) && update[h] == row[idx[h]])
    && (forall h :: level <= h < MAX_LEVEL ==> idx[h] == 0)
  }

  lemma RecordNone(update: seq<SkipNode?>, row: seq<SkipNode>, lvs: seq<nat>, es: seq<Entry>, level: nat,
                   idx: seq<nat>, key: string)
    requires |update| == |idx| == MAX_LEVEL && level <= MAX_LEVEL && 0 < |row| == |lvs|
    requires forall h :: 0 <= h < MAX_LEVEL ==> idx[h] == 0
    ensures Recorded(update, row, lvs, es, level, idx, level, 0, key)
  {
  }

  lemma RecordNext(update: seq<SkipNode?>, row: seq<SkipNode>, lvs: seq<nat>, es: seq<Entry>, level: nat,
                   idx: seq<nat>, i: nat, j: nat, j': nat, key: string)
    requires i < level && j <= j' < |row| && LastBelow(lvs, es, j', i, key)
    requires Recorded(update, row, lvs, es, level, idx, i + 1, j, key)
    ensures |update| == |idx| == MAX_LEVEL
    ensures Recorded(update[i := row[j']], row, lvs, es, level, idx[i := j'], i, j', key)
    ensures lvs[j'] > i
  {
    hide LastBelow;
    LastFacts(lvs, es, j', i, key);
  }

  /** The recorded positions are the last ones before `pos`. */
  lemma RecordedPrevs(update: seq<SkipNode?>, row: seq<SkipNode>, lvs: seq<nat>, es: seq<Entry>, level: nat, pos: nat,
                      idx: seq<nat>, key: string)
    requires |lvs| == |es| + 1 && lvs[0] == MAX_LEVEL && Splits(es, pos, key) && TopLevel(lvs, level)
    requires pos > 0 && Recorded(update, row, lvs, es, level, idx, 0, pos - 1, key)
    ensures Prevs(lvs, pos, idx)
    ensures forall i :: 0 <= i < level ==> update[i] == row[idx[i]]
    ensures forall i :: level <= i < MAX_LEVEL ==> idx[i] == 0
  {
    forall i | 0 <= i < MAX_LEVEL ensures IsPrev(lvs, pos, i, idx[i]) {
      LeftBefore(lvs, es, level, pos, i, idx[i], key);
    }
  }

  lemma ShapeSorted(head: SkipNode, row: seq<SkipNode>, lvs: seq<nat>, es: seq<Entry>)
    requires Shape(head, row, lvs, es)
    ensures Sorted(es)
  {
  }

  lemma PrevsFacts(lvs: seq<nat>, pos: nat, idx: seq<nat>)
    requires Prevs(lvs, pos, idx)
    ensures |idx| == MAX_LEVEL && pos <= |lvs| && forall i :: 0 <= i < MAX_LEVEL ==> idx[i] < pos
  {
    assert IsPrev(lvs, pos, 0, idx[0]);
    forall i | 0 <= i < MAX_LEVEL ensures idx[i] < pos {
      assert IsPrev(lvs, pos, i, idx[i]);
    }
  }

  lemma InsertShape(head: SkipNode, row: seq<SkipNode>, lvs: seq<nat>, es: seq<Entry>, pos: nat, node: SkipNode)
    requires Shape(head, row, lvs, es) && 0 < pos <= |row| && node !in row && 1 <= node.level <= MAX_LEVEL
    requires var e := Entry(node.key, node.value); Below(es[..pos - 1], e.key) && Above(e.key, es[pos - 1..])
    ensures var e := Entry(node.key, node.value); var es2 := Insert(es, pos - 1, e);
            && Shape(head, Insert(row, pos, node), Insert(lvs, pos, node.level), es2)
            && AsMap(es2) == AsMap(es)[e.key := e.value]
  {
    hide Sorted, AsMap, Below, Above, Distinct;
    InsertEntry(es, pos - 1, Entry(node.key, node.value));
    InsertDistinct(row, pos, node);
    InsertLevels(row, lvs, pos, node);
    InsertFields(row, es, pos, node);
  }

  lemma InsertLevels(row: seq<SkipNode>, lvs: seq<nat>, pos: nat, node: SkipNode)
    requires |row| == |lvs| && pos <= |row| && 1 <= node.level <= MAX_LEVEL
    requires forall j :: 0 <= j < |row| ==> row[j].level == lvs[j] && 1 <= lvs[j] <= MAX_LEVEL
    ensures var row2, lvs2 := Insert(row, pos, node), Insert(lvs, pos, node.level);
            forall j :: 0 <= j < |row2| ==> row2[j].level == lvs2[j] && 1 <= lvs2[j] <= MAX_LEVEL
  {
    var row2, lvs2 := Insert(row, pos, node), Insert(lvs, pos, node.level);
    forall j | 0 <= j < |row2| ensures row2[j].level == lvs2[j] && 1 <= lvs2[j] <= MAX_LEVEL {
      var j0 := if j < pos then j else j - 1;
      assert j != pos ==> row2[j] == row[j0] && lvs2[j] == lvs[j0];
    }
  }

  lemma InsertFields(row: seq<SkipNode>, es: seq<Entry>, pos: nat, node: SkipNode)
    requires |row| == |es| + 1 && 0 < pos <= |row|
    requires forall j :: 0 <= j < |es| ==> row[j + 1].key == es[j].key && row[j + 1].value == es[j].value
    ensures var row2, es2 := Insert(row, pos, node), Insert(es, pos - 1, Entry(node.key, node.value));
            forall j :: 0 <= j < |es2| ==> row2[j + 1].key == es2[j].key && row2[j + 1].value == es2[j].value
  {
    var row2, es2 := Insert(row, pos, node), Insert(es, pos - 1, Entry(node.key, node.value));
    forall j | 0 <= j < |es2| ensures row2[j + 1].key == es2[j].key && row2[j + 1].value == es2[j].value {
      var j0 := if j + 1 < pos then j else j - 1;
      assert j + 1 != pos ==> row2[j + 1] == row[j0 + 1] && es2[j] == es[j0];
    }
  }

  lemma RemoveShape(head: SkipNode, row: seq<SkipNode>, lvs: seq<nat>, es: seq<Entry>, pos: nat)
    requires Shape(head, row, lvs, es) && 0 < pos < |row|
    ensures Shape(head, Remove(row, pos), Remove(lvs, pos), Remove(es, pos - 1))
    ensures AsMap(Remove(es, pos - 1)) == AsMap(es) - {es[pos - 1].key}
  {
    hide Sorted, AsMap, Distinct, Remove;
    RemoveEntry(es, pos - 1);
    RemoveDistinct(row, pos);
    RemoveLevels(row, lvs, pos);
    RemoveFields(row, es, pos);
  }

  lemma RemoveLevels(row: seq<SkipNode>, lvs: seq<nat>, pos: nat)
    requires |row| == |lvs| && 0 < pos < |row| && forall j :: 0 <= j < |row| ==>
               row[j].level == lvs[j] && 1 <= lvs[j] <= MAX_LEVEL
    ensures var row2, lvs2 := Remove(row, pos), Remove(lvs, pos);
            && |row2| == |lvs2| == |row| - 1 && row2[0] == row[0] && lvs2[0] == lvs[0]
            && forall j :: 0 <= j < |row2| ==> row2[j].level == lvs2[j] && 1 <= lvs2[j] <= MAX_LEVEL
  {
    var row2, lvs2 := Remove(row, pos), Remove(lvs, pos);
    forall j | 0 <= j < |row2| ensures row2[j].level == lvs2[j] && 1 <= lvs2[j] <= MAX_LEVEL {
      var j0 := if j < pos then j else j + 1;
      assert row2[j] == row[j0] && lvs2[j] == lvs[j0];
    }
  }

  lemma RemoveFields(row: seq<SkipNode>, es: seq<Entry>, pos: nat)
    requires |row| == |es| + 1 && 0 < pos < |row|
    requires forall j :: 0 <= j < |es| ==> row[j + 1].key == es[j].key && row[j + 1].value == es[j].value
    ensures var row2, es2 := Remove(row, pos), Remove(es, pos - 1);
            |row2| == |es2| + 1 && forall j :: 0 <= j < |es2| ==>
                row2[j + 1].key == es2[j].key && row2[j + 1].value == es2[j].value
  {
    var row2, es2 := Remove(row, pos), Remove(es, pos - 1);
    forall j | 0 <= j < |es2| ensures row2[j + 1].key == es2[j].key && row2[j + 1].value == es2[j].value {
      var j0 := if j + 1 < pos then j else j + 1;
      assert row2[j + 1] == row[j0 + 1] && es2[j] == es[j0];
    }
  }

  class SkipTableEngine {
    var head: SkipNode
    var level: nat
    var count: nat
    /** The head and then the nodes in key order, their levels, and their entries. */
    ghost var row: seq<SkipNode>
    ghost var lvs: seq<nat>
    ghost var es: seq<Entry>

    /** The forward pointers of all nodes. */
    ghost function Forwards(): (f: seq<seq<SkipNode?>>)
      reads this`row, row
      ensures |f| == |row| && forall j :: 0 <= j < |row| ==> f[j] == row[j].forward
    {
      var nodes := row;
      seq(|nodes|, j requires 0 <= j < |nodes| reads nodes => nodes[j].forward)
    }

    ghost predicate Valid()
      reads this, row
    {
      Shape(head, row, lvs, es) && Links(row, lvs, Forwards()) && TopLevel(lvs, level) && count == |es|
    }

    ghost function Nodes(): (r: set<SkipNode>)
      reads this`row
      ensures (forall n :: n in row ==> n in r) && forall n :: n in r ==> n in row
    {
      set n | n in row
    }

    ghost function Map(): map<string, string>
      reads this`es
    {
      AsMap(es)
    }

    /** `kvs_skiptable_create`. */
    constructor ()
      ensures Valid() && fresh(row) && Map() == map[]
    {
      var h := new SkipNode("", "", MAX_LEVEL);
      head, level, count := h, 1, 0;
      row, lvs, es := [h], [MAX_LEVEL], [];
    }

    /** The inner loop of a search: along level `i` while the next key is below `key`. */
    method Along(cur: SkipNode, i: nat, key: string, ghost j: nat) returns (cur': SkipNode, ghost j': nat)
      requires Valid() && j < |row| && cur == row[j] && i < lvs[j] && (j > 0 ==> Less(es[j - 1].key, key))
      ensures j <= j' < |row| && cur' == row[j'] && LastBelow(lvs, es, j', i, key)
    {
      cur', j' := cur, j;
      while cur'.forward[i] != null && Cmp(cur'.forward[i].key, key) < 0
        invariant j <= j' < |row| && cur' == row[j'] && i < lvs[j'] && (j' > 0 ==> Less(es[j' - 1].key, key))
        decreases |row| - j'
      {
        cur' := cur'.forward[i];
        j' := NextIdx(lvs, j', i);
      }
      NoneBeyond(lvs, es, j', i, key);
    }

    /** `skiptable_search_node`. */
    method SearchNode(key: string) returns (node: SkipNode?, ghost pos: nat)
      requires Valid()
      ensures Splits(es, pos, key)
      ensures node == if pos < |row| && es[pos - 1].key == key then row[pos] else null
    {
      var cur := head;
      ghost var j := 0;
      var i := level;
      while i > 0
        invariant 0 <= i <= level && j < |row| && cur == row[j]
        invariant if i == level then j == 0 else LastBelow(lvs, es, j, i, key)
      {
        i := i - 1;
        cur, j := Along(cur, i, key, j);
      }
      SplitHere(lvs, es, j, key);
      pos := j + 1;
      NextIs(lvs, j, 0, pos);
      node := cur.forward[0];
      if node != null {
        CmpEqual(node.key, key);
        if Cmp(node.key, key) == 0 {
          return;
        }
      }
      node := null;
    }

    /** A search decides membership. */
    lemma SearchDecides(pos: nat, key: string)
      requires Shape(head, row, lvs, es) && Splits(es, pos, key)
      ensures if pos < |row| && es[pos - 1].key == key then key in Map() && Map()[key] == es[pos - 1].value
              else key !in Map()
      ensures pos == |row| || es[pos - 1].key != key ==> Below(es[..pos - 1], key) && Above(key, es[pos - 1..])
    {
      var a := es[..pos - 1];
      if pos < |row| && es[pos - 1].key == key {
        assert es == a + [es[pos - 1]] + es[pos..];
        Found(a, es[pos - 1], es[pos..]);
      } else {
        assert es == a + es[pos - 1..];
        forall i | pos - 1 <= i < |es| ensures Less(key, es[i].key) {
          LessTotal(es[pos - 1].key, key);
          if i > pos - 1 {
            LessTrans(key, es[pos - 1].key, es[i].key);
          }
        }
        Missing(a, key, es[pos - 1..]);
      }
    }

    /** `kvs_skiptable_get`. */
    method Get(key: string) returns (r: Option<string>)
      requires Valid()
      ensures r == if key in Map() then Some(Map()[key]) else None
    {
      var node;
      ghost var pos;
      node, pos := SearchNode(key);
      SearchDecides(pos, key);
      if node == null {
        return None;
      }
      return Some(node.value);
    }

    /** `kvs_skiptable_exist`. */
    method Exist(key: string) returns (r: int)
      requires Valid()
      ensures r == if key in Map() then 0 else 1
    {
      var node;
      ghost var pos;
      node, pos := SearchNode(key);
      SearchDecides(pos, key);
      r := if node == null then 1 else 0;
    }

    /** The node at `pos` gets another value. */
    method Revalue(node: SkipNode, value: string, ghost pos: nat)
      requires Valid() && 0 < pos < |row| && node == row[pos]
      modifies this`es, node`value
      ensures Valid() && Map() == old(Map())[old(es)[pos - 1].key := value]
    {
      hide Links, Sorted, AsMap, TopLevel;
      RevaluedEntries(es, pos - 1, value);
      ghost var f := Forwards();
      node.value := value;
      es := es[pos - 1 := Entry(es[pos - 1].key, value)];
      assert Forwards() == f;
    }

    /** `kvs_skiptable_mod`. */
    method Mod(key: string, value: string) returns (r: int)
      requires Valid()
      modifies this`es, row
      ensures Valid()
      ensures r == if key in old(Map()) then 0 else 1
      ensures Map() == if key in old(Map()) then old(Map())[key := value] else old(Map())
    {
      hide Links, NextIdx, Less, Cmp, Sorted, AsMap, Splits, Shape, TopLevel, Forwards;
      var node;
      ghost var pos;
      node, pos := SearchNode(key);
      SearchDecides(pos, key);
      if node == null {
        return 1;
      }
      Revalue(node, value, pos);
      return 0;
    }

    /** `skiptable_random_level`: each coin flip may raise the level. */
    static method RandomLevel() returns (level: nat)
      ensures 1 <= level <= MAX_LEVEL
    {
      level := 1;
      while level < MAX_LEVEL
        invariant 1 <= level <= MAX_LEVEL
      {
        if * {
          break;
        }
        level := level + 1;
      }
    }

    /** The search loop of a set or del, recording in `update` where it left each level. */
    method Descend(key: string) returns (cur: SkipNode, update: array<SkipNode?>, ghost pos: nat, ghost idx: seq<nat>)
      requires Valid()
      ensures 1 <= pos <= |row| && Splits(es, pos, key) && cur == row[pos - 1] && Prevs(lvs, pos, idx)
      ensures fresh(update) && update.Length == MAX_LEVEL
      ensures forall i :: 0 <= i < level ==> update[i] == row[idx[i]]
      ensures forall i :: level <= i < MAX_LEVEL ==> idx[i] == 0
      ensures cur.forward[0] == At(row, pos)
    {
      hide Shape, Links, NextIdx, Sorted, Less, Cmp, Distinct, Prevs, IsPrev, AsMap, LastBelow, Splits, Recorded,
        TopLevel, At, Forwards;
      ShapeFacts(head, row, lvs, es);
      LinksFacts(row, lvs, Forwards());
      LevelRange(lvs, level);
      update := new SkipNode?[MAX_LEVEL](_ => null);
      cur := head;
      ghost var j: nat := 0;
      idx := seq(MAX_LEVEL, _ => 0);
      var i: nat := level;
      RecordNone(update[..], row, lvs, es, level, idx, key);
      while i > 0
        invariant 0 <= i <= level && j < |row| && cur == row[j] && |idx| == MAX_LEVEL
        invariant if i == level then j == 0 else LastBelow(lvs, es, j, i, key)
        invariant Recorded(update[..], row, lvs, es, level, idx, i, j, key)
      {
        i := i - 1;
        cur, j, idx := DescendLevel(cur, i, key, update, j, idx);
      }
      ShapeSorted(head, row, lvs, es);
      SplitHere(lvs, es, j, key);
      pos := j + 1;
      RecordedPrevs(update[..], row, lvs, es, level, pos, idx, key);
      NextIs(lvs, j, 0, pos);
      LinkHere(row, lvs, Forwards(), j, 0);
    }

    /** One level of that loop. */
    method DescendLevel(cur0: SkipNode, i: nat, key: string, update: array<SkipNode?>, ghost j0: nat,
                        ghost idx0: seq<nat>)
      returns (cur: SkipNode, ghost j: nat, ghost idx: seq<nat>)
      requires Valid() && i < level && j0 < |row| && cur0 == row[j0] && |idx0| == MAX_LEVEL == update.Length
      requires if i + 1 == level then j0 == 0 else LastBelow(lvs, es, j0, i + 1, key)
      requires Recorded(update[..], row, lvs, es, level, idx0, i + 1, j0, key)
      modifies update
      ensures j < |row| && cur == row[j] && |idx| == MAX_LEVEL && LastBelow(lvs, es, j, i, key)
      ensures Recorded(update[..], row, lvs, es, level, idx, i, j, key)
    {
      hide Shape, Links, NextIdx, Sorted, Less, Cmp, Distinct, LastBelow, Recorded, TopLevel;
      ShapeFacts(head, row, lvs, es);
      if i + 1 < level {
        LastFacts(lvs, es, j0, i + 1, key);
      }
      LevelRange(lvs, level);
      cur, j := Along(cur0, i, key, j0);
      RecordNext(update[..], row, lvs, es, level, idx0, i, j0, j, key);
      ghost var u := update[..][i := cur];
      update[i] := cur;
      assert update[..] == u;
      idx := idx0[i := j];
    }

    /** One pointer of the node at position `q` changes. */
    method SetForward(u: SkipNode, i: nat, x: SkipNode?, ghost q: nat)
      requires q < |row| && u == row[q] && Distinct(row) && i < |u.forward|
      modifies u`forward
      ensures Forwards() == old(Forwards())[q := old(Forwards())[q][i := x]]
    {
      ghost var f := Forwards();
      u.forward := u.forward[i := x];
      assert Forwards() == f[q := f[q][i := x]];
    }

    /** The loop of a set that links the new node behind the recorded nodes, level by level. */
    method LinkIn(node: SkipNode, lv: nat, update: array<SkipNode?>, ghost idx: seq<nat>)
      requires lv <= MAX_LEVEL == update.Length == |idx| && node !in row && |node.forward| == MAX_LEVEL
      requires forall j :: 0 <= j < |row| ==> |row[j].forward| == MAX_LEVEL
      requires Distinct(row)
      requires forall i :: 0 <= i < MAX_LEVEL ==> idx[i] < |row| && (i < lv ==> update[i] == row[idx[i]])
      modifies row`forward, node`forward
      ensures PutBehind(old(Forwards()), Forwards(), idx, lv, node)
      ensures |node.forward| == MAX_LEVEL
      ensures forall i :: 0 <= i < lv ==> node.forward[i] == old(Forwards())[idx[i]][i]
    {
      hide PutBehind, Distinct, Forwards;
      ghost var f := Forwards();
      PutNone(f, idx, node);
      var i := 0;
      while i < lv
        invariant 0 <= i <= lv && |node.forward| == MAX_LEVEL
        invariant PutBehind(f, Forwards(), idx, i, node)
        invariant forall h :: 0 <= h < i ==> idx[h] < |f| && h < |f[idx[h]]| && node.forward[h] == f[idx[h]][h]
      {
        LinkLevel(node, i, update[i], idx, f);
        i := i + 1;
      }
    }

    /** One level of that loop. */
    method LinkLevel(node: SkipNode, i: nat, u: SkipNode, ghost idx: seq<nat>, ghost f: seq<seq<SkipNode?>>)
      requires |idx| == MAX_LEVEL && i < MAX_LEVEL && idx[i] < |row| == |f| && u == row[idx[i]] && Distinct(row)
      requires node !in row && |node.forward| == MAX_LEVEL && PutBehind(f, Forwards(), idx, i, node)
      requires forall h :: 0 <= h < i ==> idx[h] < |f| && h < |f[idx[h]]| && node.forward[h] == f[idx[h]][h]
      modifies u`forward, node`forward
      ensures PutBehind(f, Forwards(), idx, i + 1, node) && |node.forward| == MAX_LEVEL
      ensures forall h :: 0 <= h <= i ==> idx[h] < |f| && h < |f[idx[h]]| && node.forward[h] == f[idx[h]][h]
    {
      hide PutBehind, Distinct;
      ghost var fi := Forwards();
      PutStep(f, fi, idx, i, node);
      node.forward := node.forward[i := u.forward[i]];
      assert Forwards() == fi;
      SetForward(u, i, node, idx[i]);
    }

    /** The loop of a del that takes `cur` out of its levels, stopping at the first level without it. */
    method LinkOut(cur: SkipNode, update: array<SkipNode?>, ghost pos: nat, ghost lv: nat, ghost idx: seq<nat>)
      requires pos < |row| && cur == row[pos] && lv <= level <= MAX_LEVEL == update.Length == |idx|
      requires forall j :: 0 <= j < |row| ==> |Forwards()[j]| == MAX_LEVEL
      requires Distinct(row)
      requires forall i :: 0 <= i < level ==> idx[i] < pos && update[i] == row[idx[i]]
      requires forall i :: 0 <= i < level ==> (Forwards()[idx[i]][i] == cur <==> i < lv)
      modifies row`forward
      ensures TookOut(old(Forwards()), Forwards(), idx, lv, pos)
    {
      hide TookOut, Distinct, Forwards;
      ghost var f := Forwards();
      TookNone(f, idx, pos);
      var i := 0;
      while i < level
        invariant 0 <= i <= lv && TookOut(f, Forwards(), idx, i, pos)
      {
        var stop := Bypass(cur, update[i], i, pos, lv, idx, f);
        if stop {
          break;
        }
        i := i + 1;
      }
    }

    /** One level of that loop. */
    method Bypass(cur: SkipNode, u: SkipNode, i: nat, ghost pos: nat, ghost lv: nat, ghost idx: seq<nat>,
                  ghost f: seq<seq<SkipNode?>>)
      returns (stop: bool)
      requires |idx| == MAX_LEVEL && i < MAX_LEVEL && idx[i] < pos < |row| && cur == row[pos] && u == row[idx[i]]
      requires TookOut(f, Forwards(), idx, i, pos) && Distinct(row) && (f[idx[i]][i] == cur <==> i < lv)
      modifies u`forward
      ensures stop <==> i >= lv
      ensures if stop then Forwards() == old(Forwards()) else TookOut(f, Forwards(), idx, i + 1, pos)
    {
      hide TookOut, Distinct;
      TakeOutStep(f, Forwards(), idx, i, pos);
      LengthsOf(f, Forwards(), idx, i, pos);
      stop := u.forward[i] != cur;
      if !stop {
        SetForward(u, i, cur.forward[i], idx[i]);
      }
    }

    /** The new node enters the list at `pos`. */
    method PutIn(node: SkipNode, update: array<SkipNode?>, ghost pos: nat, ghost idx: seq<nat>)
      requires Shape(head, row, lvs, es) && Links(row, lvs, Forwards()) && 0 < pos <= |row| && Prevs(lvs, pos, idx)
      requires node !in row && 1 <= node.level <= MAX_LEVEL == |node.forward| && update.Length == MAX_LEVEL
      requires forall i :: 0 <= i < node.level ==> update[i] == row[idx[i]]
      requires Below(es[..pos - 1], node.key) && Above(node.key, es[pos - 1..])
      modifies this`row, this`lvs, this`es, row`forward, node`forward
      ensures Shape(head, row, lvs, es) && Links(row, lvs, Forwards())
      ensures forall n :: n in row ==> n in old(row) || n == node
      ensures lvs == old(Insert(lvs, pos, node.level)) && |es| == old(|es|) + 1
      ensures Map() == old(Map())[node.key := node.value]
    {
      hide Shape, Links, AsMap, Below, Above, Prevs;
      ThreadIn(node, update, pos, idx);
      Enlist(node, pos, Entry(node.key, node.value));
    }

    ghost method Enlist(node: SkipNode, pos: nat, e: Entry)
      requires 0 < pos <= |row| == |lvs| == |es| + 1
      modifies this`row, this`lvs, this`es
      ensures row == Insert(old(row), pos, node) && lvs == Insert(old(lvs), pos, node.level)
              && es == Insert(old(es), pos - 1, e)
      ensures Forwards() == Insert(old(Forwards()), pos, node.forward)
    {
      row, lvs, es := Insert(row, pos, node), Insert<nat>(lvs, pos, node.level), Insert(es, pos - 1, e);
    }

    ghost method Delist(pos: nat)
      requires 0 < pos < |row| == |lvs| == |es| + 1
      modifies this`row, this`lvs, this`es
      ensures row == Remove(old(row), pos) && lvs == Remove(old(lvs), pos) && es == Remove(old(es), pos - 1)
      ensures Forwards() == Remove(old(Forwards()), pos)
    {
      row, lvs, es := Remove(row, pos), Remove(lvs, pos), Remove(es, pos - 1);
    }

    /** The pointers for the new node's place. */
    method ThreadIn(node: SkipNode, update: array<SkipNode?>, ghost pos: nat, ghost idx: seq<nat>)
      requires Shape(head, row, lvs, es) && Links(row, lvs, Forwards()) && 0 < pos <= |row| && Prevs(lvs, pos, idx)
      requires node !in row && 1 <= node.level <= MAX_LEVEL == |node.forward| && update.Length == MAX_LEVEL
      requires forall i :: 0 <= i < node.level ==> update[i] == row[idx[i]]
      requires Below(es[..pos - 1], node.key) && Above(node.key, es[pos - 1..])
      modifies row`forward, node`forward
      ensures |row| == |lvs| == |es| + 1
      ensures var es2 := Insert(es, pos - 1, Entry(node.key, node.value));
              && Shape(head, Insert(row, pos, node), Insert(lvs, pos, node.level), es2)
              && AsMap(es2) == AsMap(es)[node.key := node.value]
      ensures Links(Insert(row, pos, node), Insert(lvs, pos, node.level), Insert(Forwards(), pos, node.forward))
    {
      hide Shape, Links, NextIdx, Prevs, IsPrev, PutBehind, Distinct, AsMap, Below, Above;
      ghost var f := Forwards();
      ShapeFacts(head, row, lvs, es);
      LinksFacts(row, lvs, f);
      PrevsFacts(lvs, pos, idx);
      LinkIn(node, node.level, update, idx);
      InsertLinks(row, lvs, f, Forwards(), pos, idx, node, node.level, node.forward);
      InsertShape(head, row, lvs, es, pos, node);
    }

    /** The start that set and del share: the recorded nodes, and the key's node if there is one. */
    method Seek(key: string) returns (node: SkipNode?, update: array<SkipNode?>, ghost pos: nat, ghost idx: seq<nat>)
      requires Valid()
      ensures 1 <= pos <= |row| == |es| + 1 && Prevs(lvs, pos, idx) && |idx| == MAX_LEVEL
      ensures fresh(update) && update.Length == MAX_LEVEL
      ensures forall i :: 0 <= i < level ==> idx[i] < pos && update[i] == row[idx[i]]
      ensures forall i :: level <= i < MAX_LEVEL ==> idx[i] == 0
      ensures if key in Map() then pos < |row| && node == row[pos] && es[pos - 1].key == key
              else node == null && Below(es[..pos - 1], key) && Above(key, es[pos - 1..])
    {
      hide Shape, Links, NextIdx, Prevs, IsPrev, Distinct, AsMap, Splits, Below, Above, TopLevel, Less;
      LevelRange(lvs, level);
      ShapeFacts(head, row, lvs, es);
      LinksFacts(row, lvs, Forwards());
      var cur;
      cur, update, pos, idx := Descend(key);
      SearchDecides(pos, key);
      PrevsFacts(lvs, pos, idx);
      node := cur.forward[0];
      if node != null {
        ShapeAt(head, row, lvs, es, pos);
        CmpEqual(node.key, key);
        if Cmp(node.key, key) != 0 {
          node := null;
        }
      }
    }

    /** A level above the table's raises it, and the head stands in for the new levels. */
    method RaiseLevel(lv: nat, update: array<SkipNode?>, ghost pos: nat, ghost idx: seq<nat>)
      requires Valid() && 1 <= pos <= |row| && 1 <= lv <= MAX_LEVEL == update.Length == |idx|
      requires forall i :: 0 <= i < level ==> idx[i] < pos && update[i] == row[idx[i]]
      requires forall i :: level <= i < MAX_LEVEL ==> idx[i] == 0
      modifies this`level, update
      ensures TopLevel(Insert<nat>(lvs, pos, lv), level) && lv <= level
      ensures forall i :: 0 <= i < level ==> idx[i] < pos && update[i] == row[idx[i]]
    {
      hide Shape, Links, TopLevel;
      ShapeFacts(head, row, lvs, es);
      InsertTop(lvs, level, pos, lv);
      if lv <= level {
        return;
      }
      for i := level to lv
        modifies update
        invariant forall h :: 0 <= h < i ==> idx[h] < pos && update[h] == row[idx[h]]
      {
        assert idx[i] == 0 && head == row[0];
        update[i] := head;
      }
      level := lv;
      assert forall i :: 0 <= i < lv ==> idx[i] < pos && update[i] == row[idx[i]];
    }

    /** `kvs_skiptable_set`. */
    method Set(key: string, value: string) returns (r: int)
      requires Valid()
      modifies this, row
      ensures Valid() && forall n :: n in row ==> n in old(row) || fresh(n)
      ensures r == if key in old(Map()) then 1 else 0
      ensures Map() == if key in old(Map()) then old(Map()) else old(Map())[key := value]
    {
      hide Shape, Links, Prevs, AsMap, Below, Above, TopLevel, Forwards;
      var cur, update;
      ghost var pos, idx;
      cur, update, pos, idx := Seek(key);
      if cur != null {
        return 1;
      }
      var lv := RandomLevel();
      RaiseLevel(lv, update, pos, idx);
      var node := new SkipNode(key, value, lv);
      PutIn(node, update, pos, idx);
      count := count + 1;
      return 0;
    }

    /** The node at `pos` leaves the list. */
    method TakeOut(cur: SkipNode, update: array<SkipNode?>, ghost pos: nat, ghost idx: seq<nat>)
      requires Valid() && 0 < pos < |row| && cur == row[pos] && Prevs(lvs, pos, idx) && update.Length == MAX_LEVEL
      requires forall i :: 0 <= i < level ==> update[i] == row[idx[i]]
      modifies this`row, this`lvs, this`es, row`forward
      ensures Shape(head, row, lvs, es) && Links(row, lvs, Forwards()) && forall n :: n in row ==> n in old(row)
      ensures forall j :: 1 <= j < |lvs| ==> lvs[j] <= level
      ensures |es| == old(|es|) - 1 && Map() == old(Map()) - {old(es[pos - 1].key)}
    {
      hide Shape, Links, Prevs, AsMap;
      ThreadOut(cur, update, pos, idx);
      Delist(pos);
    }

    /** The pointers past the removed node. */
    method ThreadOut(cur: SkipNode, update: array<SkipNode?>, ghost pos: nat, ghost idx: seq<nat>)
      requires Valid() && 0 < pos < |row| && cur == row[pos] && Prevs(lvs, pos, idx) && update.Length == MAX_LEVEL
      requires forall i :: 0 <= i < level ==> update[i] == row[idx[i]]
      modifies row`forward
      ensures |row| == |lvs| == |es| + 1
      ensures var es2 := Remove(es, pos - 1);
              && Shape(head, Remove(row, pos), Remove(lvs, pos), es2) && AsMap(es2) == AsMap(es) - {es[pos - 1].key}
      ensures Links(Remove(row, pos), Remove(lvs, pos), Remove(Forwards(), pos))
    {
      hide Shape, Links, NextIdx, Prevs, IsPrev, TookOut, Distinct, At, AsMap;
      ghost var f := Forwards();
      ShapeFacts(head, row, lvs, es);
      LinksFacts(row, lvs, f);
      SeenBelow(row, lvs, f, pos, idx);
      LinkOut(cur, update, pos, lvs[pos], idx);
      RemoveLinks(row, lvs, f, Forwards(), pos, idx);
      RemoveShape(head, row, lvs, es, pos);
    }

    /** The table's level comes down to that of its highest node. */
    method LowerLevel()
      requires Shape(head, row, lvs, es) && Links(row, lvs, Forwards()) && 1 <= level <= MAX_LEVEL
      requires forall j :: 1 <= j < |lvs| ==> lvs[j] <= level
      modifies this`level
      ensures TopLevel(lvs, level)
    {
      while level > 1 && head.forward[level - 1] == null
        invariant 1 <= level <= MAX_LEVEL && forall j :: 1 <= j < |lvs| ==> lvs[j] <= level
      {
        EmptyTop(row, lvs, Forwards(), level);
        level := level - 1;
      }
      FullTop(row, lvs, Forwards(), level);
    }

    lemma NothingLost(m: map<string, string>, key: string)
      requires key !in m
      ensures m - {key} == m
    {}

    /** `kvs_skiptable_del`. */
    method Del(key: string) returns (r: int)
      requires Valid()
      modifies this, row
      ensures Valid() && forall n :: n in row ==> n in old(row)
      ensures r == if key in old(Map()) then 0 else 1
      ensures Map() == old(Map()) - {key}
    {
      hide Shape, Links, Prevs, AsMap, Below, Above, TopLevel, Forwards;
      if key !in Map() {
        NothingLost(Map(), key);
      }
      LevelRange(lvs, level);
      var cur, update;
      ghost var pos, idx;
      cur, update, pos, idx := Seek(key);
      if cur == null {
        return 1;
      }
      TakeOut(cur, update, pos, idx);
      LowerLevel();
      count := count - 1;
      return 0;
    }

    /** `kvs_skiptable_destroy`: every node is released once, in key order, and the head last. */
    method Destroy() returns (freed: seq<SkipNode>)
      requires Valid()
      modifies this`level, this`count
      ensures freed == row[1..] + [head] && level == 0 && count == 0
    {
      hide Links, TopLevel, Sorted, Distinct, Forwards;
      ZeroNext(0);
      freed := [];
      var cur := head.forward[0];
      ghost var j := 1;
      while cur != null
        invariant Valid() && 1 <= j <= |row| && cur == At(row, j) && freed == row[1..j]
        decreases |row| - j
      {
        ZeroNext(j);
        var next := cur.forward[0];
        freed := freed + [cur];
        cur := next;
        j := j + 1;
      }
      freed := freed + [head];
      level, count := 0, 0;
    }

    lemma ZeroNext(j: nat)
      requires Valid() && j < |row|
      ensures |row[j].forward| > 0 && row[j].forward[0] == At(row, j + 1)
    {
      NextIs(lvs, j, 0, j + 1);
      assert Forwards()[j][0] == At(row, NextIdx(lvs, j, 0));
    }
  }
}
