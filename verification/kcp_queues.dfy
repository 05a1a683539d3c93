/** What every operation keeps about the four queues, whatever bytes the peer sends and in either
    arithmetic. */
module KcpQueues {
  import opened SeqNum
  import opened Wire
  import opened KcpSpec
  import Seqs

  /** The window field has 16 bits, so this many segments at most are in flight. */
  const MAX_WND: int := 0xffff

  // ----- the sender's queues -----

  ghost predicate SegsFrom(ar: Arith, buf: seq<Seg>, base: nat, limit: int) {
    && (forall i :: 0 <= i < |buf| ==> Fits(ar, buf[i].sn) && 0 <= Offset(ar, buf[i].sn, base) < limit)
    && (forall i, j :: 0 <= i < j < |buf| ==> Offset(ar, buf[i].sn, base) < Offset(ar, buf[j].sn, base))
  }

  /** Everything in flight lies between `una` and `nxt`, in increasing order, and `una` is the
      oldest of it, or `nxt` if there is none. */
  ghost predicate SenderInv(ar: Arith, snd: Sender) {
    && Fits(ar, snd.una) && Fits(ar, snd.nxt)
    && 0 <= Offset(ar, snd.nxt, snd.una) <= MAX_WND
    && SegsFrom(ar, snd.buf, snd.una, Offset(ar, snd.nxt, snd.una))
    && snd.una == if snd.buf == [] then snd.nxt else snd.buf[0].sn
  }

  lemma {:induction false} ParseUnaSuffix(ar: Arith, buf: seq<Seg>, una: nat) returns (n: nat)
    ensures n <= |buf| && ParseUna(ar, buf, una) == buf[n..]
    ensures forall i :: 0 <= i < n ==> Diff(ar, una, buf[i].sn) > 0
  {
    if buf != [] && Diff(ar, una, buf[0].sn) > 0 {
      n := ParseUnaSuffix(ar, buf[1..], una);
      n := n + 1;
    } else {
      n := 0;
    }
  }

  /** An acknowledgement removes at most one segment, the one it names. */
  lemma {:induction false} RemoveSegShape(ar: Arith, buf: seq<Seg>, sn: nat) returns (n: nat)
    ensures n <= |buf|
    ensures RemoveSeg(ar, buf, sn) == if n == |buf| then buf else buf[..n] + buf[n + 1..]
    ensures n < |buf| ==> buf[n].sn == sn
  {
    if buf == [] {
      n := 0;
    } else if sn == buf[0].sn {
      n := 0;
    } else if Diff(ar, sn, buf[0].sn) < 0 {
      n := |buf|;
    } else {
      n := RemoveSegShape(ar, buf[1..], sn);
      n := n + 1;
    }
  }

  /** With what is left in flight after removals, `una` moves to the oldest. */
  lemma ShrinkKeeps(ar: Arith, snd: Sender, base: nat)
    requires Fits(ar, base) && Fits(ar, snd.nxt) && 0 <= Offset(ar, snd.nxt, base) <= MAX_WND
    requires SegsFrom(ar, snd.buf, base, Offset(ar, snd.nxt, base))
    ensures SenderInv(ar, ShrinkBuf(snd))
    ensures 0 <= Offset(ar, ShrinkBuf(snd).una, base) <= Offset(ar, snd.nxt, base)
  {
    var una := ShrinkBuf(snd).una;
    OffsetRebaseTo(ar, snd.nxt, base, una);
    forall i | 0 <= i < |snd.buf|
      ensures Offset(ar, snd.buf[i].sn, una) == Offset(ar, snd.buf[i].sn, base) - Offset(ar, una, base)
    {
      OffsetRebaseTo(ar, snd.buf[i].sn, base, una);
    }
  }

  lemma TakeUnaKeeps(ar: Arith, snd: Sender, una: nat)
    requires SenderInv(ar, snd)
    ensures SenderInv(ar, ShrinkBuf(snd.(buf := ParseUna(ar, snd.buf, una))))
  {
    var n := ParseUnaSuffix(ar, snd.buf, una);
    ShrinkKeeps(ar, snd.(buf := snd.buf[n..]), snd.una);
  }

  lemma TakeAckKeeps(ar: Arith, snd: Sender, sn: nat)
    requires SenderInv(ar, snd)
    ensures SenderInv(ar, ShrinkBuf(ParseAck(ar, snd, sn)))
  {
    var n := RemoveSegShape(ar, snd.buf, sn);
    ShrinkKeeps(ar, ParseAck(ar, snd, sn), snd.una);
  }

  /** Passes that change only the retransmission state. */
  ghost predicate SamePieces(a: seq<Seg>, b: seq<Seg>) {
    |a| == |b| && forall i :: 0 <= i < |a| ==> a[i].sn == b[i].sn && a[i].frag == b[i].frag
  }

  lemma {:induction false} CountSkippedSame(ar: Arith, buf: seq<Seg>, sn: nat, ts: u32)
    ensures SamePieces(CountSkipped(ar, buf, sn, ts), buf)
  {
    if buf != [] && Diff(ar, sn, buf[0].sn) >= 0 {
      CountSkippedSame(ar, buf[1..], sn, ts);
      assert forall i :: 1 <= i < |buf| ==> buf[i] == buf[1..][i - 1];
    }
  }

  lemma {:induction false} SweepSame(sw0: Sweep, t: Packet, buf: seq<Seg>, e: Env, deadLink: u32)
    requires sw0.buf == []
    ensures SamePieces(SweepAll(sw0, t, buf, e, deadLink).buf, buf)
  {
    if buf != [] {
      SweepSame(sw0, t, buf[..|buf| - 1], e, deadLink);
    }
  }

  lemma SamePiecesKeep(ar: Arith, snd: Sender, buf: seq<Seg>)
    requires SenderInv(ar, snd) && SamePieces(buf, snd.buf)
    ensures SenderInv(ar, snd.(buf := buf))
  {}

  /** Filling the window: the next pieces of the queue get the next numbers, and the window
      bounds what is in flight. */
  lemma {:induction false} MoveKeeps(ar: Arith, snd: Sender, wnd: nat, now: u32, rto: u32)
    requires SenderInv(ar, snd) && wnd <= MAX_WND
    ensures SenderInv(ar, MoveToBuf(ar, snd, wnd, now, rto))
    decreases |snd.queue|
  {
    OffsetOfAdd(ar, snd.una, wnd);
    DiffIsOffsetDistance(ar, snd.nxt, Add(ar, snd.una, wnd), snd.una);
    if Diff(ar, snd.nxt, Add(ar, snd.una, wnd)) < 0 && snd.queue != [] {
      OffsetSucc(ar, snd.nxt, snd.una);
      MoveKeeps(ar, MoveOne(ar, snd, now, rto), wnd, now, rto);
    }
  }

  ghost function MoveOne(ar: Arith, snd: Sender, now: u32, rto: u32): Sender
    requires snd.queue != []
  {
    snd.(queue := snd.queue[1..], nxt := Add(ar, snd.nxt, 1),
         buf := snd.buf + [Seg(snd.nxt, snd.queue[0], now, now, rto, 0, 0)])
  }

  lemma OffsetSucc(ar: Arith, a: nat, base: nat)
    requires Fits(ar, a) && Fits(ar, base) && 0 <= Offset(ar, a, base) < HALF
    ensures Fits(ar, Add(ar, a, 1)) && Offset(ar, Add(ar, a, 1), base) == Offset(ar, a, base) + 1
  {
    if ar.Wrap32? {
      var d := a - base;
      assert (Add(ar, a, 1) - base) % WORD == (d + 1) % WORD;
    }
  }

  // ----- the receiver's queues -----

  ghost predicate ItemsFrom(ar: Arith, buf: seq<Item>, base: nat, limit: int) {
    && (forall i :: 0 <= i < |buf| ==> Fits(ar, buf[i].sn) && 0 <= Offset(ar, buf[i].sn, base) < limit)
    && (forall i, j :: 0 <= i < j < |buf| ==> Offset(ar, buf[i].sn, base) < Offset(ar, buf[j].sn, base))
  }

  /** The receive queue is contiguous and ends just below `nxt`; the reorder buffer is increasing
      and lies in the window above. */
  ghost predicate ReceiverInv(ar: Arith, rcv: Receiver, wnd: nat) {
    && Fits(ar, rcv.nxt) && wnd < HALF
    && |rcv.queue| <= wnd
    && (forall i :: 0 <= i < |rcv.queue| ==>
        Fits(ar, rcv.queue[i].sn) && Offset(ar, rcv.nxt, rcv.queue[i].sn) == |rcv.queue| - i)
    && ItemsFrom(ar, rcv.buf, rcv.nxt, wnd)
  }

  /** Nothing that could be handed over is held back. */
  ghost predicate Drained(rcv: Receiver, wnd: nat) {
    rcv.buf == [] || rcv.buf[0].sn != rcv.nxt || |rcv.queue| >= wnd
  }

  /** Draining hands over a prefix of the reorder buffer, numbered consecutively from `nxt`. */
  lemma {:induction false} DrainShape(ar: Arith, rcv: Receiver, wnd: nat) returns (n: nat)
    requires Fits(ar, rcv.nxt)
    ensures n <= |rcv.buf|
    ensures Drain(ar, rcv, wnd) ==
              rcv.(buf := rcv.buf[n..], queue := rcv.queue + rcv.buf[..n], nxt := Add(ar, rcv.nxt, n))
    ensures forall i :: 0 <= i < n ==> rcv.buf[i].sn == Add(ar, rcv.nxt, i)
    ensures n > 0 ==> |rcv.queue| + n <= wnd
    ensures Drained(Drain(ar, rcv, wnd), wnd)
    decreases |rcv.buf|
  {
    if rcv.buf != [] && rcv.buf[0].sn == rcv.nxt && |rcv.queue| < wnd {
      var one := rcv.(buf := rcv.buf[1..], queue := rcv.queue + [rcv.buf[0]], nxt := Add(ar, rcv.nxt, 1));
      n := DrainShape(ar, one, wnd);
      hide Add;
      AddAdd(ar, rcv.nxt, 1, n);
      Seqs.MoveFront(rcv.queue, rcv.buf, n);
      forall i | 0 <= i < n + 1 ensures rcv.buf[i].sn == Add(ar, rcv.nxt, i) {
        if i > 0 {
          AddAdd(ar, rcv.nxt, 1, i - 1);
          assert rcv.buf[i] == one.buf[i - 1];
        } else {
          AddZero(ar, rcv.nxt);
        }
      }
      n := n + 1;
    } else {
      n := 0;
      assert rcv.queue + rcv.buf[..0] == rcv.queue;
    }
  }

  /** A consecutive prefix of an ordered buffer removed, the rest is ordered from the number after
      the prefix. */
  lemma DropKeeps(ar: Arith, buf: seq<Item>, base: nat, limit: int, n: nat)
    requires ItemsFrom(ar, buf, base, limit) && limit <= HALF && Fits(ar, base) && n <= |buf|
    requires forall i :: 0 <= i < n ==> buf[i].sn == Add(ar, base, i)
    ensures ItemsFrom(ar, buf[n..], Add(ar, base, n), limit)
  {
    forall i | n <= i < |buf|
      ensures Offset(ar, buf[i].sn, Add(ar, base, n)) == Offset(ar, buf[i].sn, base) - n >= 0
    {
      if n > 0 {
        OffsetsGrow(ar, buf, base, limit, n - 1);
        OffsetOfAdd(ar, base, n - 1);
        assert Offset(ar, buf[n - 1].sn, base) == n - 1;
      }
      OffsetRebase(ar, buf[i].sn, base, n);
    }
  }

  lemma {:induction false} OffsetsGrow(ar: Arith, buf: seq<Item>, base: nat, limit: int, n: nat)
    requires ItemsFrom(ar, buf, base, limit) && n < |buf|
    ensures n <= Offset(ar, buf[n].sn, base)
  {
    if n > 0 {
      OffsetsGrow(ar, buf, base, limit, n - 1);
    }
  }

  /** A queue that ends just below `base`, extended by the numbers from `base` on. */
  lemma ExtendKeeps(ar: Arith, queue: seq<Item>, base: nat, more: seq<Item>)
    requires Fits(ar, base) && |queue| + |more| < HALF
    requires forall i :: 0 <= i < |queue| ==> Fits(ar, queue[i].sn) && Offset(ar, base, queue[i].sn) == |queue| - i
    requires forall i :: 0 <= i < |more| ==> more[i].sn == Add(ar, base, i)
    ensures var q, nxt := queue + more, Add(ar, base, |more|);
            forall i :: 0 <= i < |q| ==> Fits(ar, q[i].sn) && Offset(ar, nxt, q[i].sn) == |q| - i
  {
    var q, nxt := queue + more, Add(ar, base, |more|);
    forall i | 0 <= i < |q| ensures Fits(ar, q[i].sn) && Offset(ar, nxt, q[i].sn) == |q| - i {
      if i < |queue| {
        OffsetPlus(ar, base, queue[i].sn, |more|);
      } else {
        OffsetBetween(ar, base, i - |queue|, |more|);
      }
    }
  }

  lemma DrainKeeps(ar: Arith, rcv: Receiver, wnd: nat, widest: nat)
    requires ReceiverInv(ar, rcv, widest) && wnd <= widest
    ensures ReceiverInv(ar, Drain(ar, rcv, wnd), widest) && Drained(Drain(ar, rcv, wnd), wnd)
  {
    hide Drain, ItemsFrom, Offset;
    var n := DrainShape(ar, rcv, wnd);
    if n > 0 {
      DropKeeps(ar, rcv.buf, rcv.nxt, widest, n);
      ExtendKeeps(ar, rcv.queue, rcv.nxt, rcv.buf[..n]);
    } else {
      assert rcv.queue + rcv.buf[..0] == rcv.queue && rcv.buf[0..] == rcv.buf;
      assert Drain(ar, rcv, wnd) == rcv.(nxt := Add(ar, rcv.nxt, 0));
    }
  }

  lemma AddAdd(ar: Arith, a: nat, i: nat, j: nat)
    ensures Add(ar, Add(ar, a, i), j) == Add(ar, a, i + j)
    ensures Fits(ar, Add(ar, a, i))
  {}

  lemma AddZero(ar: Arith, a: nat)
    requires Fits(ar, a)
    ensures Add(ar, a, 0) == a
  {}

  lemma OffsetPlus(ar: Arith, a: nat, base: nat, k: nat)
    requires 0 <= Offset(ar, a, base) && Offset(ar, a, base) + k < WORD
    ensures Offset(ar, Add(ar, a, k), base) == Offset(ar, a, base) + k
  {
    if ar.Wrap32? {
      assert (Add(ar, a, k) - base) % WORD == (a - base + k) % WORD;
      assert (a - base + k) % WORD == (Offset(ar, a, base) + k) % WORD;
    }
  }

  lemma OffsetBetween(ar: Arith, base: nat, i: nat, n: nat)
    requires Fits(ar, base) && i <= n < WORD
    ensures Offset(ar, Add(ar, base, n), Add(ar, base, i)) == n - i
  {
    if ar.Wrap32? {
      assert (Add(ar, base, n) - Add(ar, base, i)) % WORD == (n - i) % WORD;
    }
  }

  /** `r` is an ordered buffer that holds what `buf` held and the number of `it`. */
  ghost predicate Inserted(ar: Arith, buf: seq<Item>, it: Item, r: seq<Item>, base: nat, limit: int) {
    && ItemsFrom(ar, r, base, limit)
    && (forall x :: x in r ==> x in buf || x == it)
    && (forall x :: x in buf ==> x in r)
    && (exists x :: x in r && x.sn == it.sn)
  }

  /** Insertion keeps the buffer ordered. */
  lemma {:induction false} InsertKeeps(ar: Arith, buf: seq<Item>, it: Item, base: nat, limit: int)
    requires ItemsFrom(ar, buf, base, limit) && limit <= HALF
    requires Fits(ar, it.sn) && Fits(ar, base) && 0 <= Offset(ar, it.sn, base) < limit
    ensures Inserted(ar, buf, it, InsertBuf(ar, buf, it), base, limit)
  {
    hide Offset, Diff, Fits, ItemsFrom, Inserted;
    if buf == [] {
      InsertFirst(ar, it, base, limit);
    } else {
      var last, init := buf[|buf| - 1], buf[..|buf| - 1];
      LastOrInit(ar, buf, it, base, limit);
      if last.sn == it.sn {
        InsertRepeat(ar, buf, it, base, limit);
      } else if Diff(ar, it.sn, last.sn) > 0 {
        InsertLast(ar, buf, it, base, limit);
      } else {
        InsertKeeps(ar, init, it, base, limit);
        assert buf == init + [last];
        InsertBelow(ar, init, last, it, InsertBuf(ar, init, it), base, limit);
      }
    }
  }

  lemma InsertFirst(ar: Arith, it: Item, base: nat, limit: int)
    requires Fits(ar, it.sn) && 0 <= Offset(ar, it.sn, base) < limit
    ensures Inserted(ar, [], it, [it], base, limit)
  {
    assert it in [it];
  }

  lemma InsertRepeat(ar: Arith, buf: seq<Item>, it: Item, base: nat, limit: int)
    requires buf != [] && ItemsFrom(ar, buf, base, limit) && buf[|buf| - 1].sn == it.sn
    ensures Inserted(ar, buf, it, buf, base, limit)
  {
    assert buf[|buf| - 1] in buf;
  }

  /** The signed comparison with the last item compares the distances from the base. */
  lemma LastOrInit(ar: Arith, buf: seq<Item>, it: Item, base: nat, limit: int)
    requires buf != [] && ItemsFrom(ar, buf, base, limit) && limit <= HALF
    requires Fits(ar, it.sn) && Fits(ar, base) && 0 <= Offset(ar, it.sn, base) < limit
    ensures var last := buf[|buf| - 1];
            && ItemsFrom(ar, buf[..|buf| - 1], base, limit)
            && (Diff(ar, it.sn, last.sn) > 0 <==> Offset(ar, last.sn, base) < Offset(ar, it.sn, base))
            && (it.sn != last.sn && Diff(ar, it.sn, last.sn) <= 0 ==>
                Offset(ar, it.sn, base) < Offset(ar, last.sn, base))
  {
    hide Offset, Diff, Fits;
    var last := buf[|buf| - 1];
    DiffIsOffsetDistance(ar, it.sn, last.sn, base);
    if Offset(ar, it.sn, base) == Offset(ar, last.sn, base) {
      OffsetInjective(ar, it.sn, last.sn, base);
    }
  }

  lemma InsertLast(ar: Arith, buf: seq<Item>, it: Item, base: nat, limit: int)
    requires buf != [] && ItemsFrom(ar, buf, base, limit) && Fits(ar, it.sn)
    requires Offset(ar, buf[|buf| - 1].sn, base) < Offset(ar, it.sn, base) < limit
    ensures Inserted(ar, buf, it, buf + [it], base, limit)
  {
    hide Offset, Fits;
    assert it in buf + [it];
    forall i | 0 <= i < |buf| ensures Offset(ar, buf[i].sn, base) < Offset(ar, it.sn, base) {
      assert Offset(ar, buf[i].sn, base) <= Offset(ar, buf[|buf| - 1].sn, base);
    }
  }

  lemma InsertBelow(ar: Arith, init: seq<Item>, last: Item, it: Item, r: seq<Item>, base: nat, limit: int)
    requires ItemsFrom(ar, init + [last], base, limit)
    requires Offset(ar, it.sn, base) < Offset(ar, last.sn, base)
    requires Inserted(ar, init, it, r, base, limit)
    ensures Inserted(ar, init + [last], it, r + [last], base, limit)
  {
    hide Offset, Fits;
    var x :| x in r && x.sn == it.sn;
    assert x in r + [last];
    var buf := init + [last];
    assert buf[|init|] == last;
    forall i | 0 <= i < |r| ensures Offset(ar, r[i].sn, base) < Offset(ar, last.sn, base) {
      assert r[i] in r;
      if r[i] in init {
        var j :| 0 <= j < |init| && init[j] == r[i];
        assert buf[j] == r[i];
      }
    }
  }

  lemma ParseDataKeeps(ar: Arith, rcv: Receiver, wnd: nat, widest: nat, it: Item)
    requires ReceiverInv(ar, rcv, widest) && wnd <= widest && Fits(ar, it.sn)
    ensures ReceiverInv(ar, ParseData(ar, rcv, wnd, it), widest)
    ensures Drained(rcv, wnd) ==> Drained(ParseData(ar, rcv, wnd, it), wnd)
  {
    if BelowWindowEnd(ar, rcv, wnd, it.sn) && Diff(ar, it.sn, rcv.nxt) >= 0 {
      InWindow(ar, rcv, wnd, it.sn);
      InsertKeeps(ar, rcv.buf, it, rcv.nxt, widest);
      DrainKeeps(ar, rcv.(buf := InsertBuf(ar, rcv.buf, it)), wnd, widest);
    }
  }

  /** The two signed comparisons select exactly the window. */
  lemma InWindow(ar: Arith, rcv: Receiver, wnd: nat, sn: nat)
    requires Fits(ar, rcv.nxt) && Fits(ar, sn) && wnd < HALF
    ensures BelowWindowEnd(ar, rcv, wnd, sn) && Diff(ar, sn, rcv.nxt) >= 0 <==> 0 <= Offset(ar, sn, rcv.nxt) < wnd
  {
    if ar.Wrap32? {
      var d := Offset(ar, sn, rcv.nxt);
      assert (sn - Add(ar, rcv.nxt, wnd)) % WORD == (d - wnd) % WORD;
      ModUnique(d - wnd);
    }
  }

  lemma TakePushKeeps(ar: Arith, rcv: Receiver, wnd: nat, widest: nat, p: Packet)
    requires ReceiverInv(ar, rcv, widest) && wnd <= widest && Fits(ar, p.sn)
    ensures ReceiverInv(ar, TakePush(ar, rcv, wnd, p), widest)
    ensures Drained(rcv, wnd) ==> Drained(TakePush(ar, rcv, wnd, p), wnd)
  {
    ParseDataKeeps(ar, rcv.(acks := rcv.acks + [Ack(p.sn, p.ts)]), wnd, widest, Item(p.sn, Frag(p.frg, p.data)));
  }

  lemma TakeMessageKeeps(ar: Arith, k: Kcp, peek: bool, widest: nat)
    requires ReceiveHalf(ar, k, widest)
    ensures ReceiveHalf(ar, TakeMessage(ar, k, peek).k, widest)
    ensures Drained(TakeMessage(ar, k, peek).k.rcv, k.cfg.rcvWnd)
  {
    DrainKeeps(ar, if peek then k.rcv else k.rcv.(queue := k.rcv.queue[MergeCount(k.rcv.queue)..]),
               k.cfg.rcvWnd, widest);
  }

  // ----- every operation -----

  /** The sender's queues, and what the two ends have been told. */
  ghost predicate SendHalf(ar: Arith, k: Kcp) {
    ValidConfig(k.cfg) && k.probe.rmtWnd <= MAX_WND && SenderInv(ar, k.snd)
  }

  /** The receiver's queues, when no receive window so far was wider than `widest`. */
  ghost predicate ReceiveHalf(ar: Arith, k: Kcp, widest: nat) {
    k.cfg.rcvWnd <= widest && ReceiverInv(ar, k.rcv, widest)
  }

  /** What the application and the network can do to one endpoint. */
  datatype Op =
    | DoSend(data: seq<byte>)
    | DoRecv(len: int)
    | DoInput(bytes: seq<byte>)
    | DoFlush
    | DoUpdate(now: u32)
    | DoConfigure(setting: Setting)

  function Step(ar: Arith, k: Kcp, op: Op): Kcp {
    match op
    case DoSend(data) => k.(snd := k.snd.(queue := Send(k.cfg, k.snd.queue, data).queue))
    case DoRecv(len) => Recv(ar, k, len).k
    case DoInput(bytes) => Input(ar, k, bytes).k
    case DoFlush => Flush(ar, k).k
    case DoUpdate(now) => Update(ar, k, now).k
    case DoConfigure(s) => k.(cfg := Configure(k.cfg, s))
  }

  /** A configuration call that makes the receive window smaller, or larger. */
  predicate Shrinks(k: Kcp, op: Op) {
    op.DoConfigure? && Configure(k.cfg, op.setting).rcvWnd < k.cfg.rcvWnd
  }

  predicate Widens(k: Kcp, op: Op) {
    op.DoConfigure? && Configure(k.cfg, op.setting).rcvWnd > k.cfg.rcvWnd
  }

  lemma InputSegKeeps(ar: Arith, k: Kcp, p: Packet, widest: nat)
    requires SendHalf(ar, k) && Fits(ar, p.sn)
    ensures var k' := InputSeg(ar, k, p); SendHalf(ar, k') && k'.cfg == k.cfg
    ensures ReceiveHalf(ar, k, widest) ==> ReceiveHalf(ar, InputSeg(ar, k, p), widest)
    ensures ReceiveHalf(ar, k, widest) && Drained(k.rcv, k.cfg.rcvWnd) ==> Drained(InputSeg(ar, k, p).rcv, k.cfg.rcvWnd)
  {
    hide SenderInv, ParseUna, RemoveSeg, ReceiverInv, TakePush, UpdateAck, ShrinkBuf;
    TakeUnaKeeps(ar, k.snd, p.una);
    var k1 := TakeUna(ar, k, p);
    TakeAckKeeps(ar, k1.snd, p.sn);
    if ReceiveHalf(ar, k, widest) {
      TakePushKeeps(ar, k.rcv, k.cfg.rcvWnd, widest, p);
    }
  }

  lemma FinishInputKeeps(ar: Arith, k: Kcp, prevUna: nat, newest: Newest)
    requires SendHalf(ar, k)
    ensures var k' := FinishInput(ar, k, prevUna, newest); SendHalf(ar, k') && k'.rcv == k.rcv && k'.cfg == k.cfg
  {
    if newest.Newest? {
      CountSkippedSame(ar, k.snd.buf, newest.sn, newest.ts);
      SamePiecesKeep(ar, k.snd, CountSkipped(ar, k.snd.buf, newest.sn, newest.ts));
    }
  }

  lemma {:induction false} InputBytesKeeps(ar: Arith, k: Kcp, b: seq<byte>, prevUna: nat, newest: Newest, widest: nat)
    requires SendHalf(ar, k)
    ensures var k' := InputBytes(ar, k, b, prevUna, newest).k;
            && SendHalf(ar, k')
            && (ReceiveHalf(ar, k, widest) ==> ReceiveHalf(ar, k', widest))
            && (ReceiveHalf(ar, k, widest) && Drained(k.rcv, k.cfg.rcvWnd) ==> Drained(k'.rcv, k.cfg.rcvWnd))
    decreases |b|
  {
    hide SendHalf, ReceiverInv, InputSeg, FinishInput, Drained, DecodeHeader, ToI32;
    if |b| < OVERHEAD {
      FinishInputKeeps(ar, k, prevUna, newest);
    } else {
      var h := DecodeHeader(b);
      if h.conv == k.cfg.conv && h.len <= |b| - OVERHEAD && KnownCmd(h.cmd) {
        var p := PacketOf(h, b[OVERHEAD..OVERHEAD + h.len]);
        InputSegKeeps(ar, k, p, widest);
        InputBytesKeeps(ar, InputSeg(ar, k, p), b[OVERHEAD + h.len..], prevUna, NewestAfter(ar, newest, p), widest);
      }
    }
  }

  lemma FlushKeeps(ar: Arith, k: Kcp)
    requires SendHalf(ar, k)
    ensures var k' := Flush(ar, k).k;
            SendHalf(ar, k') && k'.rcv == (if k.clock.updated then k.rcv.(acks := []) else k.rcv) && k'.cfg == k.cfg
  {
    hide SweepAll, MoveToBuf, AckPackets, ProbePackets, FlushCong, SenderInv;
    if k.clock.updated {
      var t, pr, e := Template(k), ProbeTimer(k.probe, k.clock.current), EnvOf(k.cfg, k.rtt.rto, k.clock.current);
      var window := SendWindow(k.cfg, pr, k.cong);
      MoveKeeps(ar, k.snd, window, e.current, e.rto);
      var snd := MoveToBuf(ar, k.snd, window, e.current, e.rto);
      var sw0 := Sweep([], [], k.xmit, false, false, k.dead);
      SweepSame(sw0, t, snd.buf, e, k.cfg.deadLink);
      SamePiecesKeep(ar, snd, SweepAll(sw0, t, snd.buf, e, k.cfg.deadLink).buf);
    }
  }

  /** Every operation keeps the queue invariants, for any bytes from the network and any setting. */
  lemma StepKeeps(ar: Arith, k: Kcp, op: Op, widest: nat)
    requires SendHalf(ar, k)
    ensures SendHalf(ar, Step(ar, k, op))
    ensures ReceiveHalf(ar, k, widest) && Step(ar, k, op).cfg.rcvWnd <= widest ==>
              ReceiveHalf(ar, Step(ar, k, op), widest)
    ensures ReceiveHalf(ar, k, widest) && Drained(k.rcv, k.cfg.rcvWnd) && !Widens(k, op) ==>
              var k' := Step(ar, k, op); Drained(k'.rcv, k'.cfg.rcvWnd)
  {
    hide InputBytes, Flush, Send, Recv, SegsFrom, ItemsFrom, Drain, ToI32, Tick, FlushDue, ReceiverInv;
    match op
    case DoSend(data) =>
    case DoRecv(len) => RecvKeeps(ar, k, len, widest);
    case DoInput(bytes) =>
      InputBytesKeeps(ar, k, bytes, k.snd.una, NoAck, widest);
      InputBytesConfig(ar, k, bytes, k.snd.una, NoAck);
    case DoFlush =>
      FlushKeeps(ar, k);
      WithoutAcks(ar, k.rcv, widest);
    case DoUpdate(now) =>
      FlushKeeps(ar, k.(clock := Tick(k.clock, now, k.cfg.interval)));
      WithoutAcks(ar, k.rcv, widest);
    case DoConfigure(s) =>
  }

  lemma RecvKeeps(ar: Arith, k: Kcp, len: int, widest: nat)
    requires SendHalf(ar, k)
    ensures var k' := Recv(ar, k, len).k;
            && k' == k.(rcv := k'.rcv, probe := k.probe.(tell := k'.probe.tell))
            && (ReceiveHalf(ar, k, widest) ==> ReceiveHalf(ar, k', widest))
            && (ReceiveHalf(ar, k, widest) && Drained(k.rcv, k.cfg.rcvWnd) ==> Drained(k'.rcv, k'.cfg.rcvWnd))
  {
    hide MergeCount, ItemBytes, Drain, ReceiverInv, PeekSize, SenderInv;
    if ReceiveHalf(ar, k, widest) {
      TakeMessageKeeps(ar, k, len < 0, widest);
    }
  }

  lemma WithoutAcks(ar: Arith, rcv: Receiver, wnd: nat)
    ensures ReceiverInv(ar, rcv.(acks := []), wnd) == ReceiverInv(ar, rcv, wnd)
  {}

  function Run(ar: Arith, k: Kcp, ops: seq<Op>): Kcp {
    if ops == [] then k else Step(ar, Run(ar, k, ops[..|ops| - 1]), ops[|ops| - 1])
  }

  /** The widest receive window of a run. */
  function Widest(ar: Arith, k: Kcp, ops: seq<Op>): nat {
    if ops == [] then k.cfg.rcvWnd
    else Max(Widest(ar, k, ops[..|ops| - 1]), Run(ar, k, ops).cfg.rcvWnd)
  }

  lemma CreateOk(ar: Arith, conv: u32)
    ensures var k := Create(conv); SendHalf(ar, k) && ReceiveHalf(ar, k, k.cfg.rcvWnd) && Drained(k.rcv, k.cfg.rcvWnd)
  {}

  /** In every run the queue invariants hold throughout, the receiver's within the widest window so
      far, which is the present one unless a call made it smaller; and until a call makes the window
      larger nothing is held back. */
  lemma {:induction false} EveryRunKeeps(ar: Arith, k0: Kcp, ops: seq<Op>)
    requires SendHalf(ar, k0) && ReceiveHalf(ar, k0, k0.cfg.rcvWnd)
    ensures SendHalf(ar, Run(ar, k0, ops)) && ReceiveHalf(ar, Run(ar, k0, ops), Widest(ar, k0, ops))
    ensures (forall i :: 0 <= i < |ops| ==> !Shrinks(Run(ar, k0, ops[..i]), ops[i])) ==>
              Widest(ar, k0, ops) == Run(ar, k0, ops).cfg.rcvWnd
    ensures Drained(k0.rcv, k0.cfg.rcvWnd)
            && (forall i :: 0 <= i < |ops| ==> !Widens(Run(ar, k0, ops[..i]), ops[i])) ==>
              var k := Run(ar, k0, ops); Drained(k.rcv, k.cfg.rcvWnd)
  {
    hide SenderInv, ItemsFrom, Step, Drained, Configure;
    if ops != [] {
      var n := |ops| - 1;
      var k, widest := Run(ar, k0, ops[..n]), Widest(ar, k0, ops);
      forall i | 0 <= i < n ensures Run(ar, k0, ops[..n][..i]) == Run(ar, k0, ops[..i]) {
        assert ops[..n][..i] == ops[..i];
      }
      EveryRunKeeps(ar, k0, ops[..n]);
      StepKeeps(ar, k, ops[n], widest);
      WiderReceiver(ar, k.rcv, Widest(ar, k0, ops[..n]), widest);
      StepConfig(ar, k, ops[n]);
    }
  }

  lemma WiderReceiver(ar: Arith, rcv: Receiver, wnd: nat, widest: nat)
    requires ReceiverInv(ar, rcv, wnd) && wnd <= widest < HALF
    ensures ReceiverInv(ar, rcv, widest)
  {}

  /** Only the configuration functions change the configuration. */
  lemma StepConfig(ar: Arith, k: Kcp, op: Op)
    ensures Step(ar, k, op).cfg == if op.DoConfigure? then Configure(k.cfg, op.setting) else k.cfg
  {
    hide Configure, Send, Drain, MergeCount, ItemBytes, FlushSend, AckPackets, ProbeTimer;
    if op.DoInput? {
      InputBytesConfig(ar, k, op.bytes, k.snd.una, NoAck);
    }
  }

  lemma {:induction false} InputBytesConfig(ar: Arith, k: Kcp, b: seq<byte>, prevUna: nat, newest: Newest)
    ensures InputBytes(ar, k, b, prevUna, newest).k.cfg == k.cfg
    decreases |b|
  {
    if |b| >= OVERHEAD {
      var h := DecodeHeader(b);
      if h.conv == k.cfg.conv && h.len <= |b| - OVERHEAD && KnownCmd(h.cmd) {
        var p := PacketOf(h, b[OVERHEAD..OVERHEAD + h.len]);
        InputBytesConfig(ar, InputSeg(ar, k, p), b[OVERHEAD + h.len..], prevUna, NewestAfter(ar, newest, p));
      }
    }
  }
}
