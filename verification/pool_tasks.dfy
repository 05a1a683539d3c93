/** The task list of the worker pool: tasks linked both ways, relinked in place by the list macros. */
module PoolTasks {
  class TaskNode {
    var prev: TaskNode?
    var next: TaskNode?

    constructor ()
      ensures prev == null && next == null
    {
      prev, next := null, null;
    }
  }

  ghost function At(items: seq<TaskNode>, i: int): TaskNode? {
    if 0 <= i < |items| then items[i] else null
  }

  ghost predicate Distinct(items: seq<TaskNode>) {
    forall i, j :: 0 <= i < j < |items| ==> items[i] != items[j]
  }

  /** The pointers of the listed tasks. */
  ghost function Nexts(items: seq<TaskNode>): (r: seq<TaskNode?>)
    reads items
    ensures |r| == |items| && forall i :: 0 <= i < |items| ==> r[i] == items[i].next
  {
    seq(|items|, i requires 0 <= i < |items| reads items => items[i].next)
  }

  ghost function Prevs(items: seq<TaskNode>): (r: seq<TaskNode?>)
    reads items
    ensures |r| == |items| && forall i :: 0 <= i < |items| ==> r[i] == items[i].prev
  {
    seq(|items|, i requires 0 <= i < |items| reads items => items[i].prev)
  }

  /** Each task points at its neighbours. */
  ghost predicate Linked(items: seq<TaskNode>, nexts: seq<TaskNode?>, prevs: seq<TaskNode?>) {
    && |nexts| == |prevs| == |items|
    && (forall i :: 0 <= i < |nexts| ==> nexts[i] == At(items, i + 1))
    && (forall i :: 0 <= i < |prevs| ==> prevs[i] == At(items, i - 1))
  }

  function Without<T>(s: seq<T>, k: nat): (r: seq<T>)
    requires k < |s|
    ensures |r| == |s| - 1 && forall i :: 0 <= i < |r| ==> r[i] == if i < k then s[i] else s[i + 1]
  {
    s[..k] + s[k + 1..]
  }

  lemma WithoutDistinct(items: seq<TaskNode>, k: nat)
    requires Distinct(items) && k < |items|
    ensures Distinct(Without(items, k)) && items[k] !in Without(items, k)
  {
  }

  lemma PointersWithout(items: seq<TaskNode>, k: nat)
    requires k < |items|
    ensures Nexts(Without(items, k)) == Without(Nexts(items), k) && Prevs(Without(items, k)) == Without(Prevs(items), k)
  {
  }

  lemma HeadIs(items: seq<TaskNode>, k: nat)
    requires Distinct(items) && k < |items|
    ensures At(items, 0) == items[k] <==> k == 0
  {
  }

  lemma AtWithout(items: seq<TaskNode>, k: nat, i: int)
    requires k < |items|
    ensures At(Without(items, k), i) == At(items, if i < k then i else i + 1)
  {
  }

  /** The list closes over the task at `k` once its neighbours point at each other. */
  lemma Closed(items: seq<TaskNode>, nexts: seq<TaskNode?>, prevs: seq<TaskNode?>, k: nat,
               nexts': seq<TaskNode?>, prevs': seq<TaskNode?>)
    requires k < |items| && Linked(items, nexts, prevs) && |nexts'| == |prevs'| == |items|
    requires forall i :: 0 <= i < |items| && i != k ==> nexts'[i] == if i == k - 1 then nexts[k] else nexts[i]
    requires forall i :: 0 <= i < |items| && i != k ==> prevs'[i] == if i == k + 1 then prevs[k] else prevs[i]
    ensures Linked(Without(items, k), Without(nexts', k), Without(prevs', k))
  {
    var r, n, p := Without(items, k), Without(nexts', k), Without(prevs', k);
    forall i | 0 <= i < |n| ensures n[i] == At(r, i + 1) {
      AtWithout(items, k, i + 1);
    }
    forall i | 0 <= i < |p| ensures p[i] == At(r, i - 1) {
      AtWithout(items, k, i - 1);
    }
  }

  lemma Extended(items: seq<TaskNode>, nexts: seq<TaskNode?>, prevs: seq<TaskNode?>, item: TaskNode)
    requires Linked(items, nexts, prevs)
    ensures var last := |items| - 1;
            Linked(items + [item], (if items == [] then [] else nexts[last := item]) + [null],
                   prevs + [At(items, last)])
  {
  }

  lemma ExtendedHead(items: seq<TaskNode>, item: TaskNode)
    requires Distinct(items) && item !in items
    ensures Distinct(items + [item])
    ensures At(items + [item], 0) == if items == [] then item else At(items, 0)
    ensures At(items, 0) == null <==> items == []
    ensures items != [] ==> At(items, |items| - 1) == items[|items| - 1]
    ensures items == [] ==> At(items, |items| - 1) == null
  {
  }

  class TaskList {
    var tasks: TaskNode?
    /** The queued tasks, oldest first. */
    ghost var items: seq<TaskNode>

    ghost predicate Valid()
      reads this, items
    {
      Distinct(items) && Linked(items, Nexts(items), Prevs(items)) && tasks == At(items, 0)
    }

    constructor ()
      ensures Valid() && items == []
    {
      tasks := null;
      items := [];
    }

    method SetNext(u: TaskNode, x: TaskNode?, ghost i: nat)
      requires i < |items| && u == items[i] && Distinct(items)
      modifies u`next
      ensures Nexts(items) == old(Nexts(items))[i := x] && Prevs(items) == old(Prevs(items))
    {
      ghost var n, p := Nexts(items), Prevs(items);
      u.next := x;
      assert Nexts(items) == n[i := x] && Prevs(items) == p;
    }

    method SetPrev(u: TaskNode, x: TaskNode?, ghost i: nat)
      requires i < |items| && u == items[i] && Distinct(items)
      modifies u`prev
      ensures Prevs(items) == old(Prevs(items))[i := x] && Nexts(items) == old(Nexts(items))
    {
      ghost var n, p := Nexts(items), Prevs(items);
      u.prev := x;
      assert Prevs(items) == p[i := x] && Nexts(items) == n;
    }

    /** `LIST_INSERT_TAIL`, for a task that is not queued yet. */
    method InsertTail(item: TaskNode)
      requires Valid() && item !in items
      modifies this, items, item
      ensures Valid() && items == old(items) + [item]
    {
      hide Linked, Distinct, At;
      ghost var n, p := Nexts(items), Prevs(items);
      Extended(items, n, p, item);
      ExtendedHead(items, item);
      item.next := null;
      item.prev := null;
      assert Nexts(items) == n && Prevs(items) == p;
      if tasks == null {
        tasks := item;
      } else {
        LinkAtEnd(item, tasks);
      }
      ghost var r := items + [item];
      assert Nexts(r) == Nexts(items) + [item.next] && Prevs(r) == Prevs(items) + [item.prev];
      assert Linked(r, Nexts(r), Prevs(r)) && Distinct(r) && tasks == At(r, 0);
      ghost var n', p' := Nexts(r), Prevs(r);
      items := r;
      assert Nexts(r) == n' && Prevs(r) == p';
    }

    /** The walk to the tail, and the link there. */
    method LinkAtEnd(item: TaskNode, first: TaskNode)
      requires Valid() && tasks == first && item !in items
      modifies items, item`prev
      ensures Nexts(items) == old(Nexts(items))[|items| - 1 := item] && Prevs(items) == old(Prevs(items))
      ensures item.prev == items[|items| - 1]
    {
      ghost var n := Nexts(items);
      var tail := first;
      ghost var i := 0;
      assert n[i] == At(items, i + 1);
      while tail.next != null
        invariant i < |items| && tail == items[i] && n[i] == At(items, i + 1)
        decreases |items| - i
      {
        tail := tail.next;
        i := i + 1;
        assert n[i] == At(items, i + 1);
      }
      hide Linked;
      SetNext(tail, item, i);
      ghost var n', p' := Nexts(items), Prevs(items);
      item.prev := tail;
      assert Nexts(items) == n' && Prevs(items) == p';
    }

    /** `LIST_REMOVE`, wherever in the list the task is. */
    method Remove(item: TaskNode, ghost k: nat)
      requires Valid() && k < |items| && items[k] == item
      modifies this, items
      ensures Valid() && items == old(Without(items, k)) && item.prev == null && item.next == null
    {
      hide Linked, Distinct, Nexts, Prevs, Without, At;
      ghost var n, p := Nexts(items), Prevs(items);
      WithoutDistinct(items, k);
      AtWithout(items, k, 0);
      HeadIs(items, k);
      PointAcross(item, k);
      if tasks == item {
        tasks := item.next;
      }
      Clear(item, n, p, k);
      ghost var r := Without(items, k);
      assert Linked(r, Nexts(r), Prevs(r)) && Distinct(r) && tasks == At(r, 0);
      items := r;
    }

    /** The removed task points nowhere. */
    method Clear(item: TaskNode, ghost n: seq<TaskNode?>, ghost p: seq<TaskNode?>, ghost k: nat)
      requires k < |items| && item == items[k] && Distinct(items) && Linked(items, n, p)
      requires Nexts(items) == if k > 0 then n[k - 1 := n[k]] else n
      requires Prevs(items) == if k + 1 < |p| then p[k + 1 := p[k]] else p
      modifies item
      ensures item.prev == null && item.next == null
      ensures var r := Without(items, k); Linked(r, Nexts(r), Prevs(r))
    {
      item.prev := null;
      item.next := null;
      Closed(items, n, p, k, Nexts(items), Prevs(items));
      PointersWithout(items, k);
    }

    /** The neighbours of a task point at each other. */
    method PointAcross(item: TaskNode, ghost k: nat)
      requires Valid() && k < |items| && items[k] == item
      modifies items
      ensures Nexts(items) == (var n := old(Nexts(items)); if k > 0 then n[k - 1 := n[k]] else n)
      ensures Prevs(items) == (var p := old(Prevs(items)); if k + 1 < |p| then p[k + 1 := p[k]] else p)
      ensures item.next == At(items, k + 1)
    {
      ghost var n, p := Nexts(items), Prevs(items);
      assert n[k] == At(items, k + 1) && p[k] == At(items, k - 1);
      hide Linked, Distinct, Nexts, Prevs;
      if item.prev != null {
        SetNext(item.prev, item.next, k - 1);
      }
      if item.next != null {
        SetPrev(item.next, item.prev, k + 1);
      }
    }

    /** What a worker does under the lock once it has seen a task. */
    method TakeFirst() returns (task: TaskNode)
      requires Valid() && tasks != null
      modifies this, items
      ensures Valid() && [task] + items == old(items)
    {
      task := tasks;
      Remove(task, 0);
    }
  }
}
