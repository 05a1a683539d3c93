/** The 32-bit system is, state by state, the image of the unbounded system whose hosts read numbers as
    the nearest to their own; and as long as nothing arrives half the number space late, that reading is
    the plain one, so that wrap-around is harmless. */
module KcpRefinement {
  import opened SeqNum
  import opened Wire
  import opened KcpSpec
  import opened KcpQueues
  import opened KcpFraming
  import opened KcpSystem
  import opened KcpNearest

  // ----- images -----

  function ImgSeg(s: Seg): Seg { s.(sn := Img(s.sn)) }

  function ImgItem(it: Item): Item { it.(sn := Img(it.sn)) }

  function ImgAck(a: Ack): Ack { a.(sn := Img(a.sn)) }

  function ImgPacket(p: Packet): Packet { p.(sn := Img(p.sn), una := Img(p.una)) }

  function Map<A, B>(f: A -> B, s: seq<A>): (r: seq<B>)
    ensures |r| == |s| && forall i :: 0 <= i < |s| ==> r[i] == f(s[i])
  {
    seq(|s|, i requires 0 <= i < |s| => f(s[i]))
  }

  function ImgSegs(buf: seq<Seg>): seq<Seg> { Map(ImgSeg, buf) }

  function ImgItems(buf: seq<Item>): seq<Item> { Map(ImgItem, buf) }

  function ImgSender(s: Sender): Sender { Sender(Img(s.una), Img(s.nxt), s.queue, ImgSegs(s.buf)) }

  function ImgReceiver(r: Receiver): Receiver {
    Receiver(Img(r.nxt), ImgItems(r.queue), ImgItems(r.buf), Map(ImgAck, r.acks))
  }

  function ImgKcp(k: Kcp): Kcp { k.(snd := ImgSender(k.snd), rcv := ImgReceiver(k.rcv)) }

  function ImgDatagram(d: Datagram): Datagram { Map(ImgPacket, d) }

  function ImgHost(h: Host): Host { h.(k := ImgKcp(h.k), out := Map(ImgDatagram, h.out)) }

  function ImgSystem(s: System): System { System(ImgHost(s.a), ImgHost(s.b)) }

  lemma MapAppend<A, B>(f: A -> B, a: seq<A>, b: seq<A>)
    ensures Map(f, a + b) == Map(f, a) + Map(f, b)
  {}

  lemma MapOne<A, B>(f: A -> B, x: A)
    ensures Map(f, [x]) == [f(x)]
  {}

  lemma MapDrop<A, B>(f: A -> B, s: seq<A>, i: nat)
    requires i <= |s|
    ensures Map(f, s[i..]) == Map(f, s)[i..]
  {}

  lemma MapTake<A, B>(f: A -> B, s: seq<A>, i: nat)
    requires i <= |s|
    ensures Map(f, s[..i]) == Map(f, s)[..i]
  {}

  /** Less than half the number space apart, words compare as the numbers do. */
  predicate Near(a: nat, b: nat) { -HALF < a - b < HALF }

  lemma NearDiff(a: nat, b: nat)
    requires Near(a, b)
    ensures Diff(Wrap32, Img(a), Img(b)) == a - b && (Img(a) == Img(b) <==> a == b)
  {
    DiffRefines(a, b);
  }

  // ----- the sender's side -----

  ghost predicate NearBuf(buf: seq<Seg>, sn: nat) {
    forall i :: 0 <= i < |buf| ==> Near(sn, buf[i].sn)
  }

  lemma {:induction false} ImgParseUna(buf: seq<Seg>, una: nat)
    requires NearBuf(buf, una)
    ensures ParseUna(Wrap32, ImgSegs(buf), Img(una)) == ImgSegs(ParseUna(Unbounded, buf, una))
  {
    if buf != [] {
      NearDiff(una, buf[0].sn);
      MapDrop(ImgSeg, buf, 1);
      if una > buf[0].sn {
        ImgParseUna(buf[1..], una);
      }
    }
  }

  lemma {:induction false} ImgRemoveSeg(buf: seq<Seg>, sn: nat)
    requires NearBuf(buf, sn)
    ensures RemoveSeg(Wrap32, ImgSegs(buf), Img(sn)) == ImgSegs(RemoveSeg(Unbounded, buf, sn))
  {
    if buf != [] {
      NearDiff(sn, buf[0].sn);
      MapDrop(ImgSeg, buf, 1);
      if sn > buf[0].sn {
        ImgRemoveSeg(buf[1..], sn);
        MapAppend(ImgSeg, [buf[0]], RemoveSeg(Unbounded, buf[1..], sn));
        MapOne(ImgSeg, buf[0]);
      }
    }
  }

  lemma {:induction false} ImgCountSkipped(buf: seq<Seg>, sn: nat, ts: u32)
    requires NearBuf(buf, sn)
    ensures CountSkipped(Wrap32, ImgSegs(buf), Img(sn), ts) == ImgSegs(CountSkipped(Unbounded, buf, sn, ts))
  {
    if buf != [] {
      NearDiff(sn, buf[0].sn);
      MapDrop(ImgSeg, buf, 1);
      if sn >= buf[0].sn {
        ImgCountSkipped(buf[1..], sn, ts);
        MapAppend(ImgSeg, [Skipped(Unbounded, buf[0], sn, ts)], CountSkipped(Unbounded, buf[1..], sn, ts));
        MapOne(ImgSeg, Skipped(Unbounded, buf[0], sn, ts));
        assert ImgSegs(buf)[0] == ImgSeg(buf[0]);
      }
    }
  }

  lemma ImgShrink(snd: Sender)
    ensures ShrinkBuf(ImgSender(snd)) == ImgSender(ShrinkBuf(snd))
  {}

  lemma ImgTakeUna(snd: Sender, una: nat)
    requires SenderInv(Unbounded, snd) && snd.una - HALF <= una < snd.una + HALF
    ensures ShrinkBuf(ImgSender(snd).(buf := ParseUna(Wrap32, ImgSender(snd).buf, Img(una))))
         == ImgSender(ShrinkBuf(snd.(buf := ParseUna(Unbounded, snd.buf, una))))
  {
    hide ShrinkBuf;
    if una <= snd.una && snd.buf != [] {
      DiffRefines(una, snd.buf[0].sn);
      assert ParseUna(Unbounded, snd.buf, una) == snd.buf;
    } else {
      hide ParseUna;
      ImgParseUna(snd.buf, una);
    }
    ImgShrink(snd.(buf := ParseUna(Unbounded, snd.buf, una)));
  }

  /** Near enough to the numbers in flight, or late enough to be taken for none of them. */
  ghost predicate NearFlight(snd: Sender, sn: nat) { snd.nxt - MAX_WND - HALF <= sn < snd.una + HALF }

  lemma ImgInFlight(snd: Sender, sn: nat)
    requires SenderInv(Unbounded, snd) && NearFlight(snd, sn)
    ensures InFlight(Wrap32, ImgSender(snd), Img(sn)) == InFlight(Unbounded, snd, sn)
    ensures InFlight(Unbounded, snd, sn) ==> NearBuf(snd.buf, sn)
  {
    hide Diff;
    if sn >= snd.una - HALF {
      DiffRefines(sn, snd.una);
      if sn >= snd.una {
        DiffRefines(sn, snd.nxt);
      }
    } else {
      Beyond(sn, snd.una);
      Beyond(sn, snd.nxt);
    }
    PlainDiff(sn, snd.una);
    PlainDiff(sn, snd.nxt);
  }

  lemma PlainDiff(a: nat, b: nat)
    ensures Diff(Unbounded, a, b) == a - b
  {}

  /** Just over half the number space behind, a word looks as if it were ahead. */
  lemma Beyond(a: nat, b: nat)
    requires HALF < b - a <= HALF + MAX_WND
    ensures Diff(Wrap32, Img(a), Img(b)) > 0
  {
    ModShift(a, b);
    assert (a - b) % WORD == a - b + WORD;
  }

  lemma ImgParseAck(snd: Sender, sn: nat)
    requires SenderInv(Unbounded, snd) && NearFlight(snd, sn)
    ensures ShrinkBuf(ParseAck(Wrap32, ImgSender(snd), Img(sn))) == ImgSender(ShrinkBuf(ParseAck(Unbounded, snd, sn)))
  {
    hide ShrinkBuf, RemoveSeg, InFlight;
    ImgInFlight(snd, sn);
    if InFlight(Unbounded, snd, sn) {
      ImgRemoveSeg(snd.buf, sn);
    }
    ImgShrink(ParseAck(Unbounded, snd, sn));
  }

  lemma ImgParseFastack(snd: Sender, sn: nat, ts: u32)
    requires SenderInv(Unbounded, snd) && NearFlight(snd, sn)
    ensures ParseFastack(Wrap32, ImgSender(snd), Img(sn), ts) == ImgSender(ParseFastack(Unbounded, snd, sn, ts))
  {
    hide CountSkipped, InFlight;
    ImgInFlight(snd, sn);
    if InFlight(Unbounded, snd, sn) {
      ImgCountSkipped(snd.buf, sn, ts);
    }
  }

  lemma {:induction false} ImgMove(snd: Sender, wnd: nat, now: u32, rto: u32)
    requires SenderInv(Unbounded, snd) && wnd <= MAX_WND
    ensures MoveToBuf(Wrap32, ImgSender(snd), wnd, now, rto) == ImgSender(MoveToBuf(Unbounded, snd, wnd, now, rto))
    decreases |snd.queue|
  {
    AddRefines(snd.una, wnd);
    NearDiff(snd.nxt, snd.una + wnd);
    if snd.nxt < snd.una + wnd && snd.queue != [] {
      var one := MoveOne(Unbounded, snd, now, rto);
      AddRefines(snd.nxt, 1);
      var seg := Seg(snd.nxt, snd.queue[0], now, now, rto, 0, 0);
      MapAppend(ImgSeg, snd.buf, [seg]);
      MapOne(ImgSeg, seg);
      assert ImgSender(one) == MoveOne(Wrap32, ImgSender(snd), now, rto);
      MoveOneKeeps(snd, now, rto);
      ImgMove(one, wnd, now, rto);
    }
  }

  lemma MoveOneKeeps(snd: Sender, now: u32, rto: u32)
    requires SenderInv(Unbounded, snd) && snd.queue != [] && snd.nxt - snd.una < MAX_WND
    ensures SenderInv(Unbounded, MoveOne(Unbounded, snd, now, rto))
  {}

  function ImgSweepOf(sw: Sweep): Sweep {
    sw.(buf := ImgSegs(sw.buf), packets := Map(ImgPacket, sw.packets))
  }

  /** Neither the fate of a segment nor what a flush makes of it depends on its number. */
  lemma ImgTouch(t: Packet, seg: Seg, e: Env)
    ensures FateOf(ImgSeg(seg), e) == FateOf(seg, e) && Touch(ImgSeg(seg), e) == ImgSeg(Touch(seg, e))
    ensures PushPacket(ImgPacket(t), ImgSeg(seg), e.current) == ImgPacket(PushPacket(t, seg, e.current))
  {}

  lemma ImgSweepSeg(sw: Sweep, t: Packet, seg: Seg, e: Env, deadLink: u32)
    ensures SweepSeg(ImgSweepOf(sw), ImgPacket(t), ImgSeg(seg), e, deadLink) ==
              ImgSweepOf(SweepSeg(sw, t, seg, e, deadLink))
  {
    hide Touch, FateOf, PushPacket;
    ImgTouch(t, seg, e);
    ImgTouch(t, Touch(seg, e), e);
    MapAppend(ImgSeg, sw.buf, [Touch(seg, e)]);
    MapOne(ImgSeg, Touch(seg, e));
    var p := PushPacket(t, Touch(seg, e), e.current);
    MapAppend(ImgPacket, sw.packets, [p]);
    MapOne(ImgPacket, p);
  }

  lemma {:induction false} ImgSweep(sw0: Sweep, t: Packet, buf: seq<Seg>, e: Env, deadLink: u32)
    requires sw0.buf == [] && sw0.packets == []
    ensures SweepAll(sw0, ImgPacket(t), ImgSegs(buf), e, deadLink) == ImgSweepOf(SweepAll(sw0, t, buf, e, deadLink))
  {
    hide SweepSeg;
    if buf != [] {
      ImgSweep(sw0, t, buf[..|buf| - 1], e, deadLink);
      MapTake(ImgSeg, buf, |buf| - 1);
      ImgSweepSeg(SweepAll(sw0, t, buf[..|buf| - 1], e, deadLink), t, buf[|buf| - 1], e, deadLink);
    }
  }

  // ----- the receiver's side -----

  lemma {:induction false} ImgInsert(buf: seq<Item>, it: Item)
    requires forall i :: 0 <= i < |buf| ==> Near(it.sn, buf[i].sn)
    ensures InsertBuf(Wrap32, ImgItems(buf), ImgItem(it)) == ImgItems(InsertBuf(Unbounded, buf, it))
  {
    if buf == [] {
      MapOne(ImgItem, it);
    } else {
      var init, last := buf[..|buf| - 1], buf[|buf| - 1];
      NearDiff(it.sn, last.sn);
      MapTake(ImgItem, buf, |buf| - 1);
      if it.sn > last.sn {
        MapAppend(ImgItem, buf, [it]);
        MapOne(ImgItem, it);
      } else if it.sn < last.sn {
        ImgInsert(init, it);
        MapAppend(ImgItem, InsertBuf(Unbounded, init, it), [last]);
        MapOne(ImgItem, last);
      }
    }
  }

  lemma {:induction false} ImgDrain(rcv: Receiver, wnd: nat)
    requires ItemsFrom(Unbounded, rcv.buf, rcv.nxt, HALF)
    ensures Drain(Wrap32, ImgReceiver(rcv), wnd) == ImgReceiver(Drain(Unbounded, rcv, wnd))
    decreases |rcv.buf|
  {
    if rcv.buf != [] {
      NearDiff(rcv.buf[0].sn, rcv.nxt);
      if rcv.buf[0].sn == rcv.nxt && |rcv.queue| < wnd {
        var one := rcv.(buf := rcv.buf[1..], queue := rcv.queue + [rcv.buf[0]], nxt := rcv.nxt + 1);
        AddRefines(rcv.nxt, 1);
        MapDrop(ImgItem, rcv.buf, 1);
        MapAppend(ImgItem, rcv.queue, [rcv.buf[0]]);
        MapOne(ImgItem, rcv.buf[0]);
        assert rcv.buf[1..] == []
          || Offset(Unbounded, rcv.buf[0].sn, rcv.nxt) < Offset(Unbounded, rcv.buf[1].sn, rcv.nxt);
        ImgDrain(one, wnd);
      }
    }
  }

  lemma ImgWindow(rcv: Receiver, wnd: nat, sn: nat)
    requires wnd < HALF && rcv.nxt + wnd - HALF <= sn < rcv.nxt + wnd + HALF
    ensures BelowWindowEnd(Wrap32, ImgReceiver(rcv), wnd, Img(sn)) == BelowWindowEnd(Unbounded, rcv, wnd, sn)
    ensures sn < rcv.nxt + wnd ==> Diff(Wrap32, Img(sn), Img(rcv.nxt)) == sn - rcv.nxt
  {
    AddRefines(rcv.nxt, wnd);
    DiffRefines(sn, rcv.nxt + wnd);
    DiffRefines(sn, rcv.nxt);
  }

  lemma ImgTakePush(rcv: Receiver, wnd: nat, p: Packet)
    requires ItemsFrom(Unbounded, rcv.buf, rcv.nxt, HALF)
    requires wnd < HALF && rcv.nxt + wnd - HALF <= p.sn < rcv.nxt + wnd + HALF
    ensures TakePush(Wrap32, ImgReceiver(rcv), wnd, ImgPacket(p)) == ImgReceiver(TakePush(Unbounded, rcv, wnd, p))
  {
    hide Drain, InsertBuf, ItemsFrom, ParseData;
    ImgWindow(rcv, wnd, p.sn);
    var rcv1 := rcv.(acks := rcv.acks + [Ack(p.sn, p.ts)]);
    MapAppend(ImgAck, rcv.acks, [Ack(p.sn, p.ts)]);
    MapOne(ImgAck, Ack(p.sn, p.ts));
    assert ImgReceiver(rcv1) == ImgReceiver(rcv).(acks := ImgReceiver(rcv).acks + [Ack(Img(p.sn), p.ts)]);
    if BelowWindowEnd(Unbounded, rcv, wnd, p.sn) && p.sn >= rcv.nxt {
      ImgParseData(rcv1, wnd, Item(p.sn, Frag(p.frg, p.data)));
    }
  }

  lemma ImgParseData(rcv: Receiver, wnd: nat, it: Item)
    requires ItemsFrom(Unbounded, rcv.buf, rcv.nxt, HALF)
    requires wnd < HALF && rcv.nxt <= it.sn < rcv.nxt + wnd
    ensures ParseData(Wrap32, ImgReceiver(rcv), wnd, ImgItem(it)) == ImgReceiver(ParseData(Unbounded, rcv, wnd, it))
    ensures var rcv' := ParseData(Unbounded, rcv, wnd, it);
            ItemsFrom(Unbounded, rcv'.buf, rcv'.nxt, HALF) && rcv.nxt <= rcv'.nxt
  {
    hide Drain, InsertBuf, BelowWindowEnd;
    ImgWindow(rcv, wnd, it.sn);
    ImgInsert(rcv.buf, it);
    InsertKeeps(Unbounded, rcv.buf, it, rcv.nxt, HALF);
    var rcv1 := rcv.(buf := InsertBuf(Unbounded, rcv.buf, it));
    ImgDrain(rcv1, wnd);
    var n := DrainShape(Unbounded, rcv1, wnd);
    DropKeeps(Unbounded, rcv1.buf, rcv1.nxt, HALF, n);
  }

  lemma {:induction false} ImgMergeCount(queue: seq<Item>)
    ensures MergeCount(ImgItems(queue)) == MergeCount(queue)
  {
    if queue != [] {
      MapDrop(ImgItem, queue, 1);
      ImgMergeCount(queue[1..]);
    }
  }

  lemma {:induction false} ImgItemBytes(queue: seq<Item>)
    ensures ItemBytes(ImgItems(queue)) == ItemBytes(queue)
  {
    if queue != [] {
      MapTake(ImgItem, queue, |queue| - 1);
      ImgItemBytes(queue[..|queue| - 1]);
    }
  }

  lemma ImgFront(queue: seq<Item>)
    ensures var n := MergeCount(queue);
            && MergeCount(ImgItems(queue)) == n
            && ItemBytes(ImgItems(queue)[..n]) == ItemBytes(queue[..n])
            && ImgItems(queue)[n..] == ImgItems(queue[n..])
            && PeekSize(ImgItems(queue)) == PeekSize(queue)
  {
    var n := MergeCount(queue);
    ImgMergeCount(queue);
    MapTake(ImgItem, queue, n);
    MapDrop(ImgItem, queue, n);
    ImgItemBytes(queue[..n]);
  }

  lemma ImgRecv(k: Kcp, len: int)
    requires ItemsFrom(Unbounded, k.rcv.buf, k.rcv.nxt, HALF)
    ensures var r, r' := Recv(Unbounded, k, len), Recv(Wrap32, ImgKcp(k), len);
            r' == r.(k := ImgKcp(r.k))
  {
    hide Drain, MergeCount, ItemBytes, PeekSize;
    ImgFront(k.rcv.queue);
    var n := MergeCount(k.rcv.queue);
    ImgDrain(if len < 0 then k.rcv else k.rcv.(queue := k.rcv.queue[n..]), k.cfg.rcvWnd);
  }

  // ----- datagrams as bytes -----

  lemma {:induction false} PacketWithin(d: Datagram, p: Packet)
    requires p in d
    ensures Size(p) <= DatagramSize(d)
  {
    if p != d[|d| - 1] {
      PacketWithin(d[..|d| - 1], p);
    }
  }

  /** The loop over the bytes of a datagram takes exactly its segments, in order, and ends with
      nothing left over. */
  lemma {:induction false} InputRoundTrip(ar: Arith, k: Kcp, d: Datagram, prevUna: nat, newest: Newest)
    requires forall p :: p in d ==> Encodable(p)
    ensures InputBytes(ar, k, EncodeAll(d), prevUna, newest) == InputSegs(ar, k, d, prevUna, newest)
    decreases |d|
  {
    hide InputSeg, FinishInput, EncodeAll, Encode, DecodeHeader, ToI32;
    if d == [] {
      EncodeNone();
    } else {
      var p, rest := d[0], EncodeAll(d[1..]);
      EncodeAllFront(d);
      PacketRoundTrip(p, rest);
      SmallLength(|p.data|);
      InputRoundTrip(ar, InputSeg(ar, k, p), d[1..], prevUna, NewestAfter(ar, newest, p));
    }
  }

  lemma EncodeNone()
    ensures EncodeAll([]) == []
  {}

  lemma SmallLength(n: nat)
    requires n < HALF
    ensures ToI32(n) == n
  {}

  lemma ImgEncodable(d: Datagram)
    requires DatagramSize(d) < HALF
    ensures forall p :: p in ImgDatagram(d) ==> Encodable(p)
  {
    forall p | p in ImgDatagram(d) ensures Encodable(p) {
      var i :| 0 <= i < |d| && ImgDatagram(d)[i] == p;
      PacketWithin(d, d[i]);
    }
  }

  lemma {:induction false} ImgSize(d: Datagram)
    ensures DatagramSize(ImgDatagram(d)) == DatagramSize(d)
  {
    if d != [] {
      MapTake(ImgPacket, d, |d| - 1);
      ImgSize(d[..|d| - 1]);
    }
  }

  // ----- input -----

  /** Not so far ahead that the nearest number of the same word would be an older one. */
  predicate Readable(k: Kcp, p: Packet) {
    && p.una < k.snd.una + HALF
    && (p.cmd == CMD_ACK ==> p.sn < k.snd.una + HALF)
    && (p.cmd == CMD_PUSH ==> p.sn < k.rcv.nxt + k.cfg.rcvWnd + HALF)
  }

  /** What the input of a segment needs of the queues. */
  ghost predicate Ordered(k: Kcp) {
    SenderInv(Unbounded, k.snd) && ItemsFrom(Unbounded, k.rcv.buf, k.rcv.nxt, HALF) && k.cfg.rcvWnd < HALF
  }

  /** Where an endpoint stands never moves back. */
  predicate Advances(k: Kcp, k': Kcp) {
    k.snd.una <= k'.snd.una && k'.snd.nxt == k.snd.nxt && k.rcv.nxt <= k'.rcv.nxt && k'.cfg == k.cfg
  }

  lemma ReadImg(k: Kcp, p: Packet)
    ensures ImgPacket(Read(k, p)) == ImgPacket(p)
  {
    hide Lift;
  }

  /** A segment taken by its words is the image of the segment read by the nearest numbers. */
  lemma ImgInputSeg(k: Kcp, p: Packet)
    requires Ordered(k) && Readable(k, p)
    ensures InputSeg(Wrap32, ImgKcp(k), ImgPacket(p)) == ImgKcp(InputSeg(Unbounded, k, Read(k, p)))
  {
    hide ParseUna, ParseAck, TakePush, UpdateAck, SenderInv, ShrinkBuf, ItemsFrom, Lift;
    var q := Read(k, p);
    ReadImg(k, p);
    ImgTakeUna(k.snd, q.una);
    var s1 := ShrinkBuf(k.snd.(buf := ParseUna(Unbounded, k.snd.buf, q.una)));
    if p.cmd == CMD_ACK {
      TakeUnaKeeps(Unbounded, k.snd, q.una);
      FlightShrinks(k.snd, q.una, q.sn);
      SenderSpan(k.snd);
      ImgParseAck(s1, q.sn);
    } else if p.cmd == CMD_PUSH {
      ImgTakePush(k.rcv, k.cfg.rcvWnd, q);
    }
  }

  lemma InputSegOrdered(k: Kcp, q: Packet)
    requires Ordered(k)
    ensures var k' := InputSeg(Unbounded, k, q); Ordered(k') && Advances(k, k')
  {
    hide ParseUna, RemoveSeg, Drain, InsertBuf, ParseData, UpdateAck, SenderInv, ShrinkBuf, ItemsFrom, InFlight;
    TakeUnaKeeps(Unbounded, k.snd, q.una);
    FlightShrinks(k.snd, q.una, q.sn);
    var s1 := ShrinkBuf(k.snd.(buf := ParseUna(Unbounded, k.snd.buf, q.una)));
    if q.cmd == CMD_ACK {
      TakeAckKeeps(Unbounded, s1, q.sn);
      AckAdvances(s1, q.sn);
    } else if q.cmd == CMD_PUSH && BelowWindowEnd(Unbounded, k.rcv, k.cfg.rcvWnd, q.sn) && q.sn >= k.rcv.nxt {
      ImgParseData(k.rcv.(acks := k.rcv.acks + [Ack(q.sn, q.ts)]), k.cfg.rcvWnd, Item(q.sn, Frag(q.frg, q.data)));
    }
  }

  lemma AckAdvances(snd: Sender, sn: nat)
    requires SenderInv(Unbounded, snd)
    ensures var s1 := ShrinkBuf(ParseAck(Unbounded, snd, sn)); snd.una <= s1.una && s1.nxt == snd.nxt
  {
    hide RemoveSeg, InFlight;
    var n := RemoveSegShape(Unbounded, snd.buf, sn);
  }

  function ImgNewest(n: Newest): Newest {
    if n.Newest? then n.(sn := Img(n.sn)) else n
  }

  ghost predicate NewestNear(n: Newest, snd: Sender) { n.Newest? ==> NearFlight(snd, n.sn) }

  lemma ImgNewestAfter(n: Newest, p: Packet)
    ensures NewestAfter(Wrap32, ImgNewest(n), ImgPacket(p)) == ImgNewest(ReadNewest(n, p))
  {}

  lemma ImgFinish(k: Kcp, prevUna: nat, newest: Newest)
    requires SenderInv(Unbounded, k.snd) && NewestNear(newest, k.snd)
    requires prevUna <= k.snd.una && k.snd.nxt <= prevUna + MAX_WND
    ensures FinishInput(Wrap32, ImgKcp(k), Img(prevUna), ImgNewest(newest)) ==
              ImgKcp(FinishInput(Unbounded, k, prevUna, newest))
  {
    hide ParseFastack, Grow;
    if newest.Newest? {
      ImgParseFastack(k.snd, newest.sn, newest.ts);
      FastackUna(k.snd, newest.sn, newest.ts);
    }
    NearDiff(k.snd.una, prevUna);
  }

  lemma FastackUna(snd: Sender, sn: nat, ts: u32)
    ensures ParseFastack(Unbounded, snd, sn, ts).una == snd.una
  {}

  lemma NewestStays(k: Kcp, k': Kcp, n: Newest, p: Packet)
    requires SenderInv(Unbounded, k.snd) && Advances(k, k') && NewestNear(n, k.snd) && Readable(k, p)
    ensures NewestNear(ReadNewest(n, Read(k, p)), k'.snd)
  {
    hide Lift, Diff, TimeDiff;
  }

  lemma StillReadable(k: Kcp, k': Kcp, d: Datagram)
    requires d != [] && Advances(k, k') && forall p :: p in d ==> Readable(k, p)
    ensures forall p :: p in d[1..] ==> Readable(k', p)
  {
    assert forall p :: p in d[1..] ==> p in d;
  }

  lemma {:induction false} ImgInputSegs(k: Kcp, d: Datagram, prevUna: nat, newest: Newest)
    requires Ordered(k) && NewestNear(newest, k.snd) && prevUna <= k.snd.una && k.snd.nxt <= prevUna + MAX_WND
    requires forall p :: p in d ==> Readable(k, p)
    ensures InputSegs(Wrap32, ImgKcp(k), ImgDatagram(d), Img(prevUna), ImgNewest(newest)).k
         == ImgKcp(ReadSegs(k, d, prevUna, newest))
    decreases |d|
  {
    hide InputSeg, FinishInput, SenderInv, ItemsFrom, ImgKcp, Read, ReadNewest, NewestNear, NewestAfter;
    ImgCfg(k);
    if d == [] {
      ImgFinish(k, prevUna, newest);
    } else if d[0].conv == k.cfg.conv && KnownCmd(d[0].cmd) {
      var p, q := d[0], Read(k, d[0]);
      assert p in d;
      ReadImg(k, p);
      ImgInputSeg(k, p);
      InputSegOrdered(k, q);
      ImgNewestAfter(newest, q);
      NewestStays(k, InputSeg(Unbounded, k, q), newest, p);
      MapDrop(ImgPacket, d, 1);
      StillReadable(k, InputSeg(Unbounded, k, q), d);
      ImgInputSegs(InputSeg(Unbounded, k, q), d[1..], prevUna, ReadNewest(newest, q));
    }
  }

  lemma ImgCfg(k: Kcp)
    ensures ImgKcp(k).cfg == k.cfg
  {}

  /** What the receiver accepted it can only have from the sender. */
  lemma AcceptedWasSent(sent: seq<Frag>, rcv: Receiver, delivered: seq<seq<byte>>, sn: nat)
    requires RecvSide(sent, rcv, delivered) && Accepted(rcv, sn)
    ensures sn < |sent|
  {}

  lemma AckWasSent(h: Host, peer: Host, p: Packet)
    requires Link(h, peer) && PacketOk(peer.sent, peer.k.rcv, p)
    ensures p.una <= |h.sent| && (p.cmd == CMD_ACK ==> p.sn <= |h.sent|)
  {
    if p.cmd == CMD_ACK {
      AcceptedWasSent(h.sent, peer.k.rcv, peer.delivered, p.sn);
    }
  }

  // ----- flush -----

  lemma {:induction false} ImgAckPackets(t: Packet, acks: seq<Ack>)
    ensures AckPackets(ImgPacket(t), Map(ImgAck, acks)) == Map(ImgPacket, AckPackets(t, acks))
  {
    if acks != [] {
      var init, a := acks[..|acks| - 1], acks[|acks| - 1];
      ImgAckPackets(t, init);
      MapTake(ImgAck, acks, |acks| - 1);
      MapAppend(ImgPacket, AckPackets(t, init), [t.(ts := a.ts, sn := a.sn)]);
      MapOne(ImgPacket, t.(ts := a.ts, sn := a.sn));
    }
  }

  lemma ImgProbePackets(t: Packet, acks: seq<Ack>, ask: bool, tell: bool)
    ensures ProbePackets(ImgPacket(t), Map(ImgAck, acks), ask, tell) == Map(ImgPacket, ProbePackets(t, acks, ask, tell))
  {}

  lemma ImgFlushSend(cfg: Config, snd: Sender, cong: Cong, window: u32, e: Env, t: Packet, xmit: u32, dead: bool)
    requires SenderInv(Unbounded, snd) && window <= MAX_WND
    ensures var w, w' := FlushSend(Unbounded, cfg, snd, cong, window, e, t, xmit, dead),
                         FlushSend(Wrap32, cfg, ImgSender(snd), cong, window, e, ImgPacket(t), xmit, dead);
            w' == w.(snd := ImgSender(w.snd), packets := Map(ImgPacket, w.packets))
  {
    hide MoveToBuf, SweepAll, FlushCong, SenderInv;
    ImgMove(snd, window, e.current, e.rto);
    var snd1 := MoveToBuf(Unbounded, snd, window, e.current, e.rto);
    ImgSweep(Sweep([], [], xmit, false, false, dead), t, snd1.buf, e, cfg.deadLink);
    ModShift(snd1.nxt, snd1.una);
  }

  lemma ImgFlush(k: Kcp)
    requires SenderInv(Unbounded, k.snd) && k.probe.rmtWnd <= MAX_WND
    ensures var r, r' := Flush(Unbounded, k), Flush(Wrap32, ImgKcp(k));
            r' == FlushResult(ImgKcp(r.k), Map(ImgPacket, r.packets))
  {
    hide FlushSend, AckPackets, ProbePackets, ProbeTimer, SenderInv;
    if k.clock.updated {
      var t, pr, e := Template(k), ProbeTimer(k.probe, k.clock.current), EnvOf(k.cfg, k.rtt.rto, k.clock.current);
      assert Template(ImgKcp(k)) == ImgPacket(t);
      ProbeKeepsWindow(k.probe, k.clock.current);
      var window := SendWindow(k.cfg, pr, k.cong);
      ImgFlushSend(k.cfg, k.snd, k.cong, window, e, t, k.xmit, k.dead);
      var w := FlushSend(Unbounded, k.cfg, k.snd, k.cong, window, e, t, k.xmit, k.dead);
      ImgAckPackets(t, k.rcv.acks);
      ImgProbePackets(t, k.rcv.acks, pr.ask, pr.tell);
      var qs, ps := AckPackets(t, k.rcv.acks), ProbePackets(t, k.rcv.acks, pr.ask, pr.tell);
      MapAppend(ImgPacket, qs, ps);
      MapAppend(ImgPacket, qs + ps, w.packets);
    }
  }

  function ImgPacker(pk: Packer): Packer { Packer(Map(ImgDatagram, pk.done), ImgDatagram(pk.cur)) }

  lemma {:induction false} ImgEmitAll(mtu: nat, ps: seq<Packet>)
    ensures EmitAll(Packer([], []), mtu, Map(ImgPacket, ps)) == ImgPacker(EmitAll(Packer([], []), mtu, ps))
  {
    if ps != [] {
      var init, p := ps[..|ps| - 1], ps[|ps| - 1];
      ImgEmitAll(mtu, init);
      MapTake(ImgPacket, ps, |ps| - 1);
      ImgEmit(EmitAll(Packer([], []), mtu, init), mtu, p);
    }
  }

  lemma ImgEmit(pk: Packer, mtu: nat, p: Packet)
    ensures Emit(ImgPacker(pk), mtu, ImgPacket(p)) == ImgPacker(Emit(pk, mtu, p))
  {
    ImgSize(pk.cur);
    ImgSent(pk);
    MapAppend(ImgPacket, pk.cur, [p]);
    MapOne(ImgPacket, p);
  }

  lemma ImgSent(pk: Packer)
    ensures Sent(ImgPacker(pk)) == Map(ImgDatagram, Sent(pk))
  {
    MapAppend(ImgDatagram, pk.done, [pk.cur]);
    MapOne(ImgDatagram, pk.cur);
  }

  lemma ImgPack(mtu: nat, ps: seq<Packet>)
    ensures Pack(mtu, Map(ImgPacket, ps)) == Map(ImgDatagram, Pack(mtu, ps))
  {
    ImgEmitAll(mtu, ps);
    ImgSent(EmitAll(Packer([], []), mtu, ps));
  }

  lemma ImgAfterFlush(h: Host, r: FlushResult)
    ensures AfterFlush(ImgHost(h), FlushResult(ImgKcp(r.k), Map(ImgPacket, r.packets))) == ImgHost(AfterFlush(h, r))
  {
    hide Pack;
    ImgPack(h.k.cfg.mtu, r.packets);
    MapAppend(ImgDatagram, h.out, Pack(h.k.cfg.mtu, r.packets));
  }

  // ----- calls -----

  lemma ImgAct(h: Host, call: Call)
    requires SenderInv(Unbounded, h.k.snd) && h.k.probe.rmtWnd <= MAX_WND
    requires ItemsFrom(Unbounded, h.k.rcv.buf, h.k.rcv.nxt, HALF)
    ensures Act(Wrap32, ImgHost(h), call) == ImgHost(Act(Unbounded, h, call))
  {
    hide Send, Recv, Flush, AfterFlush, SenderInv, ItemsFrom, Tick, FlushDue;
    match call
    case CallSend(data) =>
    case CallRecv(len) => ImgRecv(h.k, len);
    case CallFlush =>
      ImgFlush(h.k);
      ImgAfterFlush(h, Flush(Unbounded, h.k));
    case CallUpdate(now) =>
      var k1 := h.k.(clock := Tick(h.k.clock, now, h.k.cfg.interval));
      ImgFlush(k1);
      assert Map(ImgPacket, []) == [];
      ImgAfterFlush(h, Update(Unbounded, h.k, now));
    case CallConfigure(s) =>
  }

  // ----- how far the two ends drift apart -----

  const LIMIT: int := HALF - 0x1_0000

  /** The receiver never buffers further ahead than its window. */
  ghost predicate Bounded(k: Kcp) {
    && k.cfg.rcvWnd <= LIMIT
    && forall i :: 0 <= i < |k.rcv.buf| ==> k.rcv.buf[i].sn < k.rcv.nxt + LIMIT
  }

  lemma {:induction false} InsertMembers(buf: seq<Item>, it: Item)
    ensures forall i :: 0 <= i < |InsertBuf(Unbounded, buf, it)| ==>
              InsertBuf(Unbounded, buf, it)[i] == it || InsertBuf(Unbounded, buf, it)[i] in buf
  {
    if buf != [] {
      InsertMembers(buf[..|buf| - 1], it);
    }
  }

  lemma DrainBounded(k: Kcp, rcv: Receiver, wnd: nat)
    requires Bounded(k.(rcv := rcv))
    ensures Bounded(k.(rcv := Drain(Unbounded, rcv, wnd)))
  {
    hide Drain;
    var n := DrainShape(Unbounded, rcv, wnd);
  }

  lemma InputSegBounded(k: Kcp, p: Packet)
    requires Bounded(k)
    ensures var k' := InputSeg(Unbounded, k, p); Bounded(k') && k'.snd.queue == k.snd.queue
  {
    hide Drain, InsertBuf, UpdateAck, ParseUna, RemoveSeg;
    var k1 := TakeUna(Unbounded, k, p);
    if p.cmd == CMD_PUSH && BelowWindowEnd(Unbounded, k.rcv, k.cfg.rcvWnd, p.sn) && p.sn >= k.rcv.nxt {
      var rcv1 := k.rcv.(acks := k.rcv.acks + [Ack(p.sn, p.ts)]);
      var it := Item(p.sn, Frag(p.frg, p.data));
      InsertMembers(rcv1.buf, it);
      DrainBounded(k1, rcv1.(buf := InsertBuf(Unbounded, rcv1.buf, it)), k.cfg.rcvWnd);
    }
  }

  lemma {:induction false} ReadSegsBounded(k: Kcp, d: Datagram, prevUna: nat, newest: Newest)
    requires Bounded(k)
    ensures var k' := ReadSegs(k, d, prevUna, newest); Bounded(k') && k'.snd.queue == k.snd.queue
    decreases |d|
  {
    hide InputSeg, ParseFastack, Grow, Read, ReadNewest, Bounded;
    if d == [] {
      FinishBounded(k, prevUna, newest);
    } else if d[0].conv == k.cfg.conv && KnownCmd(d[0].cmd) {
      var q := Read(k, d[0]);
      InputSegBounded(k, q);
      ReadSegsBounded(InputSeg(Unbounded, k, q), d[1..], prevUna, ReadNewest(newest, q));
    }
  }

  lemma FinishBounded(k: Kcp, prevUna: nat, newest: Newest)
    requires Bounded(k)
    ensures var k' := FinishInput(Unbounded, k, prevUna, newest); Bounded(k') && k'.snd.queue == k.snd.queue
  {
    hide CountSkipped, Grow;
  }

  /** A call that does not open the receive window to within 2^16 of half the number space. */
  predicate Modest(call: Call) {
    call.CallConfigure? && call.setting.SetWnd? ==> call.setting.rcv <= LIMIT
  }

  lemma ActBounded(h: Host, call: Call)
    requires Bounded(h.k) && Modest(call)
    ensures Bounded(Act(Unbounded, h, call).k)
  {
    hide Drain, MergeCount, ItemBytes, FlushSend, ProbeTimer, Send, Tick, Pack;
    if call.CallRecv? {
      var n := MergeCount(h.k.rcv.queue);
      DrainBounded(h.k, if call.len < 0 then h.k.rcv else h.k.rcv.(queue := h.k.rcv.queue[n..]), h.k.cfg.rcvWnd);
    }
  }

  /** What is behind the sender's window has arrived. */
  lemma Behind(x: Host, y: Host, sn: nat)
    requires HostInv(x) && Link(x, y) && sn < x.k.snd.una
    ensures Accepted(y.k.rcv, sn)
  {
    hide OutOk, AcksOk, LogOk, Payload, ParseAll, Flatten, RecvSide;
    assert InBuf(x.k.snd.buf, sn) || Accepted(y.k.rcv, sn);
  }

  /** The sender is ahead of the receiver by no more than the two windows. */
  lemma Drift(x: Host, y: Host)
    requires HostInv(x) && Link(x, y) && Bounded(y.k)
    ensures |x.sent| <= y.k.rcv.nxt + LIMIT + MAX_WND
  {
    hide OutOk, AcksOk, LogOk, Payload, ParseAll, Flatten, RecvSide;
    var snd, rcv := x.k.snd, y.k.rcv;
    if snd.una > rcv.nxt + LIMIT {
      Behind(x, y, snd.una - 1);
      assert false;
    }
  }

  // ----- sizes -----

  /** No piece, and no datagram, is longer than a C `int` can say. */
  ghost predicate Sized(h: Host) {
    && (forall i :: 0 <= i < |h.sent| ==> |h.sent[i].data| < HALF - OVERHEAD)
    && (forall i :: 0 <= i < |h.k.snd.queue| ==> |h.k.snd.queue[i].data| < HALF - OVERHEAD)
    && (forall d :: d in h.out ==> 0 < DatagramSize(d) < HALF)
  }

  lemma {:induction false} EmitAllSized(mtu: nat, ps: seq<Packet>)
    requires mtu < HALF && forall p :: p in ps ==> Size(p) < HALF
    ensures var pk := EmitAll(Packer([], []), mtu, ps);
            DatagramSize(pk.cur) < HALF && (pk.cur != [] ==> DatagramSize(pk.cur) > 0)
            && forall d :: d in pk.done ==> 0 < DatagramSize(d) < HALF
  {
    if ps != [] {
      EmitAllSized(mtu, ps[..|ps| - 1]);
      var pk := EmitAll(Packer([], []), mtu, ps[..|ps| - 1]);
      SingleSize(ps[|ps| - 1]);
      AppendSize(pk.cur, ps[|ps| - 1]);
    }
  }

  lemma {:induction false} AckPacketsSized(t: Packet, acks: seq<Ack>)
    requires t.data == []
    ensures forall p :: p in AckPackets(t, acks) ==> p.data == []
  {
    if acks != [] {
      AckPacketsSized(t, acks[..|acks| - 1]);
    }
  }

  lemma {:induction false} SweepSized(sw0: Sweep, t: Packet, buf: seq<Seg>, e: Env, deadLink: u32)
    requires sw0.packets == [] && forall i :: 0 <= i < |buf| ==> |buf[i].frag.data| < HALF - OVERHEAD
    ensures forall p :: p in SweepAll(sw0, t, buf, e, deadLink).packets ==> Size(p) < HALF
  {
    if buf != [] {
      SweepSized(sw0, t, buf[..|buf| - 1], e, deadLink);
    }
  }

  lemma FlushSized(h: Host, peer: Host)
    requires HostInv(h) && Link(h, peer) && Sized(h)
    ensures Sized(AfterFlush(h, Flush(Unbounded, h.k)))
  {
    hide OutOk, AcksOk, LogOk, Payload, ParseAll, Flatten, RecvSide, NoLoss, SenderInv, FlushSend, ProbeTimer,
      AckPackets, Pack, DatagramSize;
    var k := h.k;
    if k.clock.updated {
      var t, pr, e := Template(k), ProbeTimer(k.probe, k.clock.current), EnvOf(k.cfg, k.rtt.rto, k.clock.current);
      ProbeKeepsWindow(k.probe, k.clock.current);
      var w := FlushSend(Unbounded, k.cfg, k.snd, k.cong, SendWindow(k.cfg, pr, k.cong), e, t, k.xmit, k.dead);
      FlushFields(h, AfterFlush(h, Flush(Unbounded, k)), t, pr, w);
      DataSized(h, t, SendWindow(k.cfg, pr, k.cong), e);
      AckPacketsSized(t, k.rcv.acks);
      var ps := AckPackets(t, k.rcv.acks) + ProbePackets(t, k.rcv.acks, pr.ask, pr.tell) + w.packets;
      PackSized(k.cfg.mtu, ps);
    } else {
      NothingFlushed(h);
    }
  }

  lemma PackSized(mtu: nat, ps: seq<Packet>)
    requires mtu < HALF && forall p :: p in ps ==> Size(p) < HALF
    ensures forall d :: d in Pack(mtu, ps) ==> 0 < DatagramSize(d) < HALF
  {
    EmitAllSized(mtu, ps);
  }

  lemma DataSized(h: Host, t: Packet, window: u32, e: Env)
    requires SendSide(h) && Sized(h) && t.data == []
    ensures var k := h.k;
            var w := FlushSend(Unbounded, k.cfg, k.snd, k.cong, window, e, t, k.xmit, k.dead);
            && (forall p :: p in w.packets ==> Size(p) < HALF)
            && (forall i :: 0 <= i < |w.snd.queue| ==> |w.snd.queue[i].data| < HALF - OVERHEAD)
            && var m := Moved(k.snd.queue, w.snd.queue); forall i :: 0 <= i < |m| ==> |m[i].data| < HALF - OVERHEAD
  {
    hide MoveToBuf, SweepAll, FlushCong, LogOk, Payload, ParseAll, Flatten, SenderInv;
    var k := h.k;
    var n := MoveShape(k.snd, window, e.current, e.rto);
    var snd := MoveToBuf(Unbounded, k.snd, window, e.current, e.rto);
    forall i | 0 <= i < |snd.buf| ensures |snd.buf[i].frag.data| < HALF - OVERHEAD {
      if i < |k.snd.buf| {
        assert snd.buf[i] == k.snd.buf[i];
      }
    }
    SweepSized(Sweep([], [], k.xmit, false, false, k.dead), t, snd.buf, e, k.cfg.deadLink);
  }

  lemma ActSized(h: Host, peer: Host, call: Call)
    requires HostInv(h) && Link(h, peer) && Link(peer, h) && Sized(h)
    ensures Sized(Act(Unbounded, h, call))
  {
    hide Send, Recv, Flush, AfterFlush, HostInv, Link, Tick, FlushDue, DatagramSize;
    match call
    case CallSend(data) =>
      SendSizes(h.k.cfg, h.k.snd.queue, data, HALF - OVERHEAD - 1);
    case CallRecv(len) =>
      RecvSnd(h.k, len);
    case CallFlush =>
      FlushSized(h, peer);
    case CallUpdate(now) =>
      var h1 := h.(k := h.k.(clock := Tick(h.k.clock, now, h.k.cfg.interval)));
      ClockOnly(h, peer, h1);
      FlushSized(h1, peer);
      NothingFlushed(h1);
      assert AfterFlush(h, Update(Unbounded, h.k, now)) == AfterFlush(h1, Update(Unbounded, h.k, now)) by {
        AfterFlushClock(h, h1, Update(Unbounded, h.k, now));
      }
    case CallConfigure(s) =>
  }

  lemma RecvSnd(k: Kcp, len: int)
    ensures Recv(Unbounded, k, len).k.snd == k.snd
  {}

  // ----- the simulation -----

  lemma SenderSpan(snd: Sender)
    requires SenderInv(Unbounded, snd)
    ensures snd.una <= snd.nxt <= snd.una + MAX_WND
  {}

  lemma NonemptySize(d: Datagram)
    requires DatagramSize(d) > 0
    ensures DatagramSize(d) >= OVERHEAD
  {}

  /** What the peer sent is readable. */
  lemma SentIsReadable(h: Host, peer: Host, d: Datagram)
    requires HostInv(h) && HostInv(peer) && Link(h, peer) && Link(peer, h) && Bounded(h.k) && d in peer.out
    ensures Ordered(h.k) && forall p :: p in d ==> Readable(h.k, p)
  {
    hide ItemsFrom, NoLoss, LogOk, Payload, ParseAll, Flatten, AcksOk, Accepted;
    Drift(peer, h);
    SenderSpan(h.k.snd);
    forall p | p in d ensures Readable(h.k, p) {
      AckWasSent(h, peer, p);
    }
  }

  /** The bytes of a delivery, taken by a 32-bit host, give the image of what the nearest reading gives. */
  lemma ImgReceive(h: Host, peer: Host, i: nat)
    requires HostInv(h) && HostInv(peer) && Link(h, peer) && Link(peer, h) && i < |peer.out|
    requires Bounded(h.k) && Sized(peer)
    ensures Receive(Wrap32, ImgHost(h), ImgHost(peer).out[i]) == ImgHost(ReadDatagram(h, peer.out[i]))
  {
    hide InputSegs, InputBytes, EncodeAll, Encodable, HostInv, Link, ReadSegs, DatagramSize, ToI32, Bounded,
      SenderInv, ItemsFrom;
    var d := peer.out[i];
    assert d in peer.out;
    SentIsReadable(h, peer, d);
    SenderSpan(h.k.snd);
    ImgInputSegs(h.k, d, h.k.snd.una, NoAck);
    ImgSize(d);
    ImgEncodable(d);
    InputRoundTrip(Wrap32, ImgKcp(h.k), ImgDatagram(d), Img(h.k.snd.una), NoAck);
    SmallLength(|EncodeAll(ImgDatagram(d))|);
    NonemptySize(d);
  }

  ghost predicate Tame(h: Host) { Bounded(h.k) && Sized(h) }

  lemma ReceiveTame(h: Host, d: Datagram)
    requires Tame(h)
    ensures Tame(ReadDatagram(h, d))
  {
    hide ReadSegs, Bounded;
    ReadSegsBounded(h.k, d, h.k.snd.una, NoAck);
  }

  lemma TameStep(h: Host, peer: Host, call: Call)
    requires HostInv(h) && Link(h, peer) && Link(peer, h) && Tame(h) && Modest(call)
    ensures Tame(Act(Unbounded, h, call)) && Act(Wrap32, ImgHost(h), call) == ImgHost(Act(Unbounded, h, call))
  {
    hide Act, ImgHost, Bounded, Sized, OutOk, AcksOk, LogOk, NoLoss, Payload, ParseAll, SenderInv, ItemsFrom;
    ActBounded(h, call);
    ActSized(h, peer, call);
    ImgAct(h, call);
  }

  predicate ModestEvent(ev: Event) { ev.Local? ==> Modest(ev.call) }

  /** One event in 32-bit arithmetic is the image of the event in the nearest reading, mistaken or not. */
  lemma ImgNext(s: System, ev: Event)
    requires SystemInv(s) && Tame(s.a) && Tame(s.b) && ModestEvent(ev)
    ensures Next(Wrap32, ImgSystem(s), ev) == ImgSystem(NearNext(s, ev))
    ensures Tame(NearNext(s, ev).a) && Tame(NearNext(s, ev).b)
  {
    hide Act, Receive, ReadDatagram, HostInv, Link, Bounded, Sized, Modest, ImgKcp;
    match ev
    case Local(atA, call) =>
      if atA { TameStep(s.a, s.b, call); } else { TameStep(s.b, s.a, call); }
    case Deliver(toA, i) =>
      if toA {
        if i < |s.b.out| {
          ImgReceive(s.a, s.b, i);
          ReceiveTame(s.a, s.b.out[i]);
        }
      } else {
        if i < |s.a.out| {
          ImgReceive(s.b, s.a, i);
          ReceiveTame(s.b, s.a.out[i]);
        }
      }
  }

  /** Every run of the 32-bit system is, state by state, the image of the unbounded run in the nearest
      reading, up to and including the first mistaken delivery. */
  lemma {:induction false} WrappedRunRefines(conv: u32, evs: seq<Event>)
    requires forall ev :: ev in evs ==> ModestEvent(ev)
    requires evs != [] ==> ClearRun(conv, evs[..|evs| - 1])
    ensures RunAll(Wrap32, conv, evs) == ImgSystem(NearRun(conv, evs))
    ensures Tame(NearRun(conv, evs).a) && Tame(NearRun(conv, evs).b)
  {
    hide Next, NearNext, Tame, SystemInv, ModestEvent, ClearEvent;
    if evs == [] {
      StartedTame(conv);
    } else {
      var before := evs[..|evs| - 1];
      WrappedRunRefines(conv, before);
      NearStateOk(conv, before);
      ImgNext(NearRun(conv, before), evs[|evs| - 1]);
    }
  }

  /** Wrap-around is harmless: where nothing is late, the 32-bit run is the image of the plain unbounded run. */
  lemma FreshRunRefines(conv: u32, evs: seq<Event>)
    requires (forall ev :: ev in evs ==> ModestEvent(ev)) && FreshRun(conv, evs)
    ensures RunAll(Wrap32, conv, evs) == ImgSystem(RunAll(Unbounded, conv, evs))
  {
    FreshRunIsClear(conv, evs);
    WrappedRunRefines(conv, evs);
  }

  lemma StartedTame(conv: u32)
    ensures Tame(Started(conv)) && ImgHost(Started(conv)) == Started(conv)
  {}

  // ----- the promises of the 32-bit protocol -----

  /** End-to-end safety, bytes on the wire and all, of every run without a mistaken delivery. */
  lemma WrappedReceivedIsPrefixOfSent(conv: u32, evs: seq<Event>)
    requires (forall ev :: ev in evs ==> ModestEvent(ev)) && ClearRun(conv, evs)
    ensures var s := RunAll(Wrap32, conv, evs);
            && (s.a.plain ==> s.b.delivered <= s.a.accepted)
            && (s.b.plain ==> s.a.delivered <= s.b.accepted)
            && Flatten(s.b.delivered) <= Flatten(s.a.accepted)
            && Flatten(s.a.delivered) <= Flatten(s.b.accepted)
  {
    hide HostInv, Link, Flatten, ImgKcp;
    var s := NearRun(conv, evs);
    WrappedRunRefines(conv, evs);
    NearStateOk(conv, evs);
    LinkPromises(s.a, s.b);
    LinkPromises(s.b, s.a);
  }

  /** No segment is lost: what the receiver does not have in order yet is in flight or in its reorder
      buffer, each number by its word. */
  lemma WrappedNoSegmentLost(conv: u32, evs: seq<Event>, j: nat)
    requires (forall ev :: ev in evs ==> ModestEvent(ev)) && ClearRun(conv, evs)
    ensures var s := RunAll(Wrap32, conv, evs);
            && Covered(s.a.k.snd, s.b.k.rcv, j) && Covered(s.b.k.snd, s.a.k.rcv, j)
  {
    hide HostInv, Link, Covered, Tame;
    var s := NearRun(conv, evs);
    WrappedRunRefines(conv, evs);
    NearStateOk(conv, evs);
    CoveredImg(s.a, s.b, j);
    CoveredImg(s.b, s.a, j);
  }

  /** The `j`-th number from the receiver's next expected one, if the sender has used it. */
  ghost predicate Covered(snd: Sender, rcv: Receiver, j: nat) {
    j < Offset(Wrap32, snd.nxt, rcv.nxt) ==>
      var sn := Add(Wrap32, rcv.nxt, j); InBuf(snd.buf, sn) || exists i :: 0 <= i < |rcv.buf| && rcv.buf[i].sn == sn
  }

  lemma CoveredImg(x: Host, y: Host, j: nat)
    requires HostInv(x) && Link(x, y) && Tame(y)
    ensures Covered(ImgHost(x).k.snd, ImgHost(y).k.rcv, j)
  {
    hide OutOk, AcksOk, LogOk, Payload, ParseAll, Flatten, ItemsFrom, SenderInv, Sized, Offset, Add, Bounded;
    var snd, rcv := x.k.snd, y.k.rcv;
    Drift(x, y);
    OffsetOfImages(snd.nxt, rcv.nxt);
    if j < snd.nxt - rcv.nxt {
      var sn := rcv.nxt + j;
      AddRefines(rcv.nxt, j);
      PlainAdd(rcv.nxt, j);
      if InBuf(snd.buf, sn) {
        var i :| 0 <= i < |snd.buf| && snd.buf[i].sn == sn;
        assert ImgSegs(snd.buf)[i].sn == Img(sn);
      } else {
        assert Accepted(rcv, sn);
        var i :| 0 <= i < |rcv.buf| && rcv.buf[i].sn == sn;
        assert ImgItems(rcv.buf)[i].sn == Img(sn);
      }
    }
  }

  lemma PlainAdd(a: nat, k: nat)
    ensures Add(Unbounded, a, k) == a + k
  {}

  lemma OffsetOfImages(a: nat, b: nat)
    requires 0 <= a - b < WORD
    ensures Offset(Wrap32, Img(a), Img(b)) == a - b
  {
    ModShift(a, b);
  }

  /** The receiver cannot wedge. */
  lemma WrappedFullQueueHasMessage(conv: u32, evs: seq<Event>)
    requires (forall ev :: ev in evs ==> ModestEvent(ev)) && ClearRun(conv, evs)
    ensures var s := RunAll(Wrap32, conv, evs);
            && (|s.a.k.rcv.queue| >= s.a.k.cfg.rcvWnd ==> PeekSize(s.a.k.rcv.queue) >= 0)
            && (|s.b.k.rcv.queue| >= s.b.k.cfg.rcvWnd ==> PeekSize(s.b.k.rcv.queue) >= 0)
  {
    hide Link, SendSide, OutOk, AcksOk, PeekSize, Flatten;
    var s := NearRun(conv, evs);
    WrappedRunRefines(conv, evs);
    NearStateOk(conv, evs);
    LinkPromises(s.a, s.b);
    LinkPromises(s.b, s.a);
    ImgFront(s.a.k.rcv.queue);
    ImgFront(s.b.k.rcv.queue);
  }
}
