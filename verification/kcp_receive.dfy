/** What the receiving side takes in and hands out. */
module KcpReceive {
  import opened SeqNum
  import opened Wire
  import opened KcpSpec
  import opened KcpQueues
  import opened KcpFraming
  import Seqs

  // ----- handing out -----

  /** The pieces of the message at the front: all up to the first that is numbered zero, or all there are. */
  ghost predicate Front(queue: seq<Item>, n: nat) {
    && n <= |queue| && (forall i :: 0 <= i < n - 1 ==> queue[i].frag.frg > 0)
    && (n < |queue| ==> n > 0 && queue[n - 1].frag.frg == 0)
  }

  lemma {:induction false} MergeCountIs(queue: seq<Item>)
    ensures Front(queue, MergeCount(queue))
    ensures forall n :: Front(queue, n) ==> n == MergeCount(queue)
  {
    if queue != [] && queue[0].frag.frg > 0 {
      MergeCountIs(queue[1..]);
      assert forall i :: 1 <= i < |queue| ==> queue[i] == queue[1..][i - 1];
      forall n | Front(queue, n) ensures n == MergeCount(queue) {
        FrontTail(queue, n);
      }
    }
  }

  lemma FrontTail(queue: seq<Item>, n: nat)
    requires queue != [] && queue[0].frag.frg > 0 && Front(queue, n)
    ensures n > 0 && Front(queue[1..], n - 1)
  {}

  lemma OneItem(queue: seq<Item>)
    requires queue != []
    ensures ItemBytes(queue[..1]) == queue[0].frag.data
  {
    assert queue[..1][..0] == [];
  }

  /** A receive fails with -1 if there is nothing, with -2 if the first piece announces more than there are, and
      with -3 if its message does not fit the buffer, in this order, and then changes nothing; in every other
      case it hands out that message, whole, however much larger the buffer is. */
  lemma RecvExactly(ar: Arith, k: Kcp, len: int, n: nat)
    requires Front(k.rcv.queue, n)
    ensures var r, queue, room := Recv(ar, k, len), k.rcv.queue, if len < 0 then -len else len;
            var message := ItemBytes(queue[..n]);
            && (r.ret == -1 <==> queue == [])
            && (r.ret == -2 <==> queue != [] && |queue| <= queue[0].frag.frg)
            && (r.ret == -3 <==> queue != [] && |queue| > queue[0].frag.frg && |message| > room)
            && (r.ret >= 0 <==> queue != [] && |queue| > queue[0].frag.frg && |message| <= room)
            && (r.ret >= 0 ==> r.ret == |message| && r.data == message)
            && (r.ret < 0 ==> r.k == k && r.data == [])
  {
    hide MergeCount, ItemBytes, Drain;
    var queue := k.rcv.queue;
    MergeCountIs(queue);
    if queue != [] {
      OneItem(queue);
    }
  }

  /** In the pieces of a framed log the announced end is where the first zero is: a message is complete exactly
      if some piece received is its last. */
  lemma CompleteExactly(log: seq<Frag>, queue: seq<Item>, from: nat)
    requires Framed(log) && from + |queue| <= |log| && queue != []
    requires forall i :: 0 <= i < |queue| ==> queue[i].frag == log[from + i]
    ensures |queue| > queue[0].frag.frg <==> exists i :: 0 <= i < |queue| && queue[i].frag.frg == 0
  {
    FrontMessage(log, queue, from);
  }

  /** Pieces that pass from the reorder buffer to the receive queue, numbered from `nxt` on: none is lost, and
      none that could pass stays behind. */
  ghost predicate Passes(ar: Arith, queue: seq<Item>, buf: seq<Item>, nxt: nat, wnd: nat, rcv': Receiver) {
    && queue <= rcv'.queue && rcv'.queue + rcv'.buf == queue + buf && rcv'.nxt == Add(ar, nxt, |rcv'.queue| - |queue|)
    && (forall i :: |queue| <= i < |rcv'.queue| ==> rcv'.queue[i].sn == Add(ar, nxt, i - |queue|))
    && (|rcv'.queue| > |queue| ==> |rcv'.queue| <= wnd)
    && (rcv'.buf != [] ==> rcv'.buf[0].sn != rcv'.nxt || |rcv'.queue| >= wnd)
  }

  lemma DrainPasses(ar: Arith, rcv: Receiver, wnd: nat)
    requires Fits(ar, rcv.nxt)
    ensures Passes(ar, rcv.queue, rcv.buf, rcv.nxt, wnd, Drain(ar, rcv, wnd))
  {
    hide Drain, Add;
    var n := DrainShape(ar, rcv, wnd);
    var rcv' := Drain(ar, rcv, wnd);
    assert rcv.buf == rcv.buf[..n] + rcv.buf[n..];
    Seqs.Assoc(rcv.queue, rcv.buf[..n], rcv.buf[n..]);
    forall i | |rcv.queue| <= i < |rcv'.queue| ensures rcv'.queue[i].sn == Add(ar, rcv.nxt, i - |rcv.queue|) {
      assert rcv'.queue[i] == rcv.buf[i - |rcv.queue|];
    }
  }

  /** A receive takes exactly that message out of the queue, a peek nothing, and refills it from the reorder
      buffer; it asks to tell the window if it was closed and is open now. */
  lemma RecvLeaves(ar: Arith, k: Kcp, len: int, n: nat)
    requires Front(k.rcv.queue, n) && Recv(ar, k, len).ret >= 0 && Fits(ar, k.rcv.nxt)
    ensures var k', rcv, wnd := Recv(ar, k, len).k, k.rcv, k.cfg.rcvWnd;
            var left := if len < 0 then rcv.queue else rcv.queue[n..];
            && Passes(ar, left, rcv.buf, rcv.nxt, wnd, k'.rcv) && k'.rcv.acks == rcv.acks
            && k' == k.(rcv := k'.rcv, probe := k.probe.(tell := k'.probe.tell))
            && (k'.probe.tell <==> k.probe.tell || (|rcv.queue| >= wnd && |k'.rcv.queue| < wnd))
  {
    hide MergeCount, ItemBytes, Drain, Add, PeekSize;
    MergeCountIs(k.rcv.queue);
    var rcv := if len < 0 then k.rcv else k.rcv.(queue := k.rcv.queue[n..]);
    DrainPasses(ar, rcv, k.cfg.rcvWnd);
    var m := DrainShape(ar, rcv, k.cfg.rcvWnd);
  }

  // ----- taking in -----

  lemma {:induction false} InsertPlace(ar: Arith, buf: seq<Item>, it: Item) returns (m: nat)
    requires forall i :: 0 <= i < |buf| ==> buf[i].sn != it.sn
    ensures m <= |buf| && InsertBuf(ar, buf, it) == buf[..m] + [it] + buf[m..]
  {
    if buf == [] {
      m := 0;
    } else {
      var last, init := buf[|buf| - 1], buf[..|buf| - 1];
      if Diff(ar, it.sn, last.sn) > 0 {
        m := |buf|;
      } else {
        m := InsertPlace(ar, init, it);
        assert buf[m..] == init[m..] + [last] && buf[..m] == init[..m];
      }
    }
  }

  lemma {:induction false} InsertAgain(ar: Arith, buf: seq<Item>, it: Item, i: nat)
    requires i < |buf| && buf[i].sn == it.sn
    requires forall j :: i < j < |buf| ==> Diff(ar, it.sn, buf[j].sn) <= 0
    ensures InsertBuf(ar, buf, it) == buf
  {
    if i < |buf| - 1 && buf[|buf| - 1].sn != it.sn {
      InsertAgain(ar, buf[..|buf| - 1], it, i);
      Seqs.SplitAt(buf, |buf| - 1);
    }
  }

  /** A number in the receive window. */
  predicate Inside(ar: Arith, rcv: Receiver, wnd: nat, sn: nat) { 0 <= Offset(ar, sn, rcv.nxt) < wnd }

  lemma Repeated(ar: Arith, rcv: Receiver, it: Item, wnd: nat, i: nat)
    requires ItemsFrom(ar, rcv.buf, rcv.nxt, wnd) && wnd < HALF && i < |rcv.buf| && rcv.buf[i].sn == it.sn
    ensures InsertBuf(ar, rcv.buf, it) == rcv.buf
  {
    hide Offset, Diff;
    forall j | i < j < |rcv.buf| ensures Diff(ar, it.sn, rcv.buf[j].sn) <= 0 {
      DiffIsOffsetDistance(ar, it.sn, rcv.buf[j].sn, rcv.nxt);
    }
    InsertAgain(ar, rcv.buf, it, i);
  }

  /** A piece inside the receive window is kept, once, whatever order it comes in, and passes on with all that
      it makes contiguous; one outside is not.  It is acknowledged exactly if it lies below the end of the
      window, so a repeat is acknowledged again. */
  lemma PushExactly(ar: Arith, rcv: Receiver, wnd: nat, widest: nat, p: Packet) returns (m: nat)
    requires ReceiverInv(ar, rcv, widest) && wnd <= widest && Fits(ar, p.sn)
    ensures m <= |rcv.buf|
    ensures var rcv', it := TakePush(ar, rcv, wnd, p), Item(p.sn, Frag(p.frg, p.data));
            var isNew := forall i :: 0 <= i < |rcv.buf| ==> rcv.buf[i].sn != p.sn;
            var buf := if isNew then rcv.buf[..m] + [it] + rcv.buf[m..] else rcv.buf;
            && (Inside(ar, rcv, wnd, p.sn) ==> Passes(ar, rcv.queue, buf, rcv.nxt, wnd, rcv'))
            && (!Inside(ar, rcv, wnd, p.sn) ==> rcv' == rcv.(acks := rcv'.acks))
            && rcv'.acks == (if Diff(ar, p.sn, Add(ar, rcv.nxt, wnd)) < 0 then rcv.acks + [Ack(p.sn, p.ts)]
                else rcv.acks)
  {
    hide Diff, Offset, Add, InsertBuf, Drain, ItemsFrom, Passes;
    var it := Item(p.sn, Frag(p.frg, p.data));
    InWindow(ar, rcv, wnd, p.sn);
    if i :| 0 <= i < |rcv.buf| && rcv.buf[i].sn == p.sn {
      m := 0;
      Repeated(ar, rcv, it, widest, i);
    } else {
      m := InsertPlace(ar, rcv.buf, it);
    }
    var rcv1 := rcv.(acks := rcv.acks + [Ack(p.sn, p.ts)], buf := InsertBuf(ar, rcv.buf, it));
    DrainPasses(ar, rcv1, wnd);
    var n := DrainShape(ar, rcv1, wnd);
  }
}
