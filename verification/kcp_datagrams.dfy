/** What a 32-bit endpoint puts on the wire: datagrams within the MTU that decode to exactly the
    segments that were flushed. */
module KcpDatagrams {
  import opened SeqNum
  import opened Wire
  import opened KcpSpec
  import opened KcpQueues
  import opened KcpFraming
  import KcpRefinement

  // ----- what a flush will find -----

  ghost predicate ShortFrags(queue: seq<Frag>, mss: int) {
    forall i :: 0 <= i < |queue| ==> |queue[i].data| <= mss
  }

  ghost predicate ShortSegs(buf: seq<Seg>, mss: int) {
    forall i :: 0 <= i < |buf| ==> |buf[i].frag.data| <= mss
  }

  /** No queued or unacknowledged piece is longer. */
  ghost predicate Short(snd: Sender, mss: int) { ShortFrags(snd.queue, mss) && ShortSegs(snd.buf, mss) }

  /** Every number to be acknowledged is a word. */
  ghost predicate Numbered(rcv: Receiver) {
    rcv.nxt < WORD && forall i :: 0 <= i < |rcv.acks| ==> rcv.acks[i].sn < WORD
  }

  /** The MTU is one for which sizes are computed right, and every piece fits it. */
  ghost predicate Sendable(k: Kcp) { k.cfg.mtu < SAFE && Short(k.snd, k.cfg.Mss()) && Numbered(k.rcv) }

  /** A call that lowers the MTU below a piece that is still queued or unacknowledged, or sets it to 2^30
      or more. */
  ghost predicate Strands(k: Kcp, op: Op) {
    op.DoConfigure? && var cfg := Configure(k.cfg, op.setting); cfg.mtu >= SAFE || !Short(k.snd, cfg.Mss())
  }

  /** Every piece waiting is one for which sizes are computed right. */
  ghost predicate Light(k: Kcp) { k.cfg.mtu < SAFE && Short(k.snd, SAFE - OVERHEAD - 1) }

  lemma DrainAcks(rcv: Receiver, wnd: nat)
    ensures var r := Drain(Wrap32, rcv, wnd); r.acks == rcv.acks && (rcv.nxt < WORD ==> r.nxt < WORD)
    decreases |rcv.buf|
  {}

  lemma TakePushAcks(rcv: Receiver, wnd: nat, p: Packet)
    ensures var r := TakePush(Wrap32, rcv, wnd, p);
            (r.acks == rcv.acks || r.acks == rcv.acks + [Ack(p.sn, p.ts)]) && (rcv.nxt < WORD ==> r.nxt < WORD)
  {
    hide Drain, InsertBuf;
    var rcv1 := rcv.(acks := rcv.acks + [Ack(p.sn, p.ts)]);
    DrainAcks(rcv1.(buf := InsertBuf(Wrap32, rcv1.buf, Item(p.sn, Frag(p.frg, p.data)))), wnd);
  }

  lemma AckSideShort(snd: Sender, p: Packet, mss: int)
    requires Short(snd, mss)
    ensures var s1 := ShrinkBuf(snd.(buf := ParseUna(Wrap32, snd.buf, p.una)));
            Short(s1, mss) && Short(ShrinkBuf(ParseAck(Wrap32, s1, p.sn)), mss)
  {
    hide ParseUna, RemoveSeg, InFlight;
    var n := ParseUnaSuffix(Wrap32, snd.buf, p.una);
    var s1 := ShrinkBuf(snd.(buf := ParseUna(Wrap32, snd.buf, p.una)));
    var m := RemoveSegShape(Wrap32, s1.buf, p.sn);
  }

  lemma InputSegShort(k: Kcp, p: Packet, mss: int)
    requires Short(k.snd, mss)
    ensures var k' := InputSeg(Wrap32, k, p); Short(k'.snd, mss) && k'.cfg == k.cfg
    ensures Numbered(k.rcv) && p.sn < WORD ==> Numbered(InputSeg(Wrap32, k, p).rcv)
  {
    hide ParseUna, ParseAck, ShrinkBuf, TakePush, UpdateAck;
    AckSideShort(k.snd, p, mss);
    TakePushAcks(k.rcv, k.cfg.rcvWnd, p);
  }

  lemma {:induction false} InputShort(k: Kcp, b: seq<byte>, prevUna: nat, newest: Newest, mss: int)
    requires Short(k.snd, mss)
    ensures var k' := InputBytes(Wrap32, k, b, prevUna, newest).k;
            Short(k'.snd, mss) && k'.cfg == k.cfg && (Numbered(k.rcv) ==> Numbered(k'.rcv))
    decreases |b|
  {
    hide InputSeg, CountSkipped, Grow;
    if |b| < OVERHEAD {
      if newest.Newest? {
        CountSkippedSame(Wrap32, k.snd.buf, newest.sn, newest.ts);
      }
    } else {
      hide FinishInput, Short, Numbered;
      var h := DecodeHeader(b);
      if h.conv == k.cfg.conv && h.len <= |b| - OVERHEAD && KnownCmd(h.cmd) {
        var p := PacketOf(h, b[OVERHEAD..OVERHEAD + h.len]);
        InputSegShort(k, p, mss);
        InputShort(InputSeg(Wrap32, k, p), b[OVERHEAD + h.len..], prevUna, NewestAfter(Wrap32, newest, p), mss);
      }
    }
  }

  lemma {:induction false} MoveShort(snd: Sender, wnd: nat, now: u32, rto: u32, mss: int)
    requires Short(snd, mss)
    ensures Short(MoveToBuf(Wrap32, snd, wnd, now, rto), mss)
    decreases |snd.queue|
  {
    if Diff(Wrap32, snd.nxt, Add(Wrap32, snd.una, wnd)) < 0 && snd.queue != [] {
      var one := MoveOne(Wrap32, snd, now, rto);
      assert MoveToBuf(Wrap32, snd, wnd, now, rto) == MoveToBuf(Wrap32, one, wnd, now, rto);
      MoveShort(one, wnd, now, rto, mss);
    }
  }

  lemma FlushShort(k: Kcp, mss: int)
    requires Short(k.snd, mss)
    ensures var k' := Flush(Wrap32, k).k;
            Short(k'.snd, mss) && k'.cfg == k.cfg && (Numbered(k.rcv) ==> Numbered(k'.rcv))
  {
    hide SweepAll, MoveToBuf, AckPackets, ProbePackets, FlushCong, ProbeTimer;
    if k.clock.updated {
      var e := EnvOf(k.cfg, k.rtt.rto, k.clock.current);
      var window := SendWindow(k.cfg, ProbeTimer(k.probe, k.clock.current), k.cong);
      MoveShort(k.snd, window, e.current, e.rto, mss);
      var snd := MoveToBuf(Wrap32, k.snd, window, e.current, e.rto);
      SweepSame(Sweep([], [], k.xmit, false, false, k.dead), Template(k), snd.buf, e, k.cfg.deadLink);
    }
  }

  /** No operation makes a piece longer than the MTU allows. */
  lemma StepShort(k: Kcp, op: Op, mss: int)
    requires Short(k.snd, mss) && k.cfg.Mss() <= mss
    ensures var k' := Step(Wrap32, k, op); Short(k'.snd, mss) && (Numbered(k.rcv) ==> Numbered(k'.rcv))
    ensures !op.DoConfigure? ==> Step(Wrap32, k, op).cfg == k.cfg
  {
    hide Send, InputBytes, Flush, MergeCount, ItemBytes, Drain, Tick, FlushDue, ToI32, Configure;
    match op
    case DoSend(data) => SendSizes(k.cfg, k.snd.queue, data, mss);
    case DoRecv(len) =>
      var n := MergeCount(k.rcv.queue);
      DrainAcks(if len < 0 then k.rcv else k.rcv.(queue := k.rcv.queue[n..]), k.cfg.rcvWnd);
    case DoInput(bytes) => InputShort(k, bytes, k.snd.una, NoAck, mss);
    case DoFlush => FlushShort(k, mss);
    case DoUpdate(now) => FlushShort(k.(clock := Tick(k.clock, now, k.cfg.interval)), mss);
    case DoConfigure(s) =>
  }

  /** Everything stays sendable, except exactly through a call that strands a piece. */
  lemma StepSendable(k: Kcp, op: Op)
    requires Sendable(k)
    ensures Sendable(Step(Wrap32, k, op)) <==> !Strands(k, op)
  {
    hide Short, Numbered, Configure, Send, Recv, Input, Flush, Update;
    StepShort(k, op, k.cfg.Mss());
  }

  /** Raising the MTU within that bound strands nothing, nor does any such call while nothing waits. */
  lemma NothingStranded(k: Kcp, op: Op)
    requires Sendable(k)
    requires op.DoConfigure? ==> Configure(k.cfg, op.setting).mtu < SAFE
    requires op.DoConfigure? ==> Configure(k.cfg, op.setting).mtu >= k.cfg.mtu || (k.snd.queue == [] && k.snd.buf == [])
    ensures !Strands(k, op)
  {
    hide Configure;
  }

  /** Without an MTU of 2^30 or more no piece is that long, however the MTU changes. */
  lemma {:induction false} EveryRunLight(conv: u32, ops: seq<Op>)
    requires forall s :: DoConfigure(s) in ops && s.SetMtu? ==> s.mtu < SAFE
    ensures Light(Run(Wrap32, Create(conv), ops))
  {
    hide Short, Step;
    if ops == [] {
      CreateSendable(conv);
      CreateLight(conv);
    } else {
      var n := |ops| - 1;
      assert forall s :: DoConfigure(s) in ops[..n] ==> DoConfigure(s) in ops;
      EveryRunLight(conv, ops[..n]);
      var k := Run(Wrap32, Create(conv), ops[..n]);
      StepShort(k, ops[n], SAFE - OVERHEAD - 1);
      assert ops[n] in ops;
      StepMtu(k, ops[n]);
    }
  }

  lemma CreateLight(conv: u32)
    ensures Light(Create(conv))
  {}

  lemma StepMtu(k: Kcp, op: Op)
    requires op.DoConfigure? && op.setting.SetMtu? ==> op.setting.mtu < SAFE
    ensures op.DoConfigure? && k.cfg.mtu < SAFE ==> Step(Wrap32, k, op).cfg.mtu < SAFE
  {}

  /** A segment of the flush: it fits the MTU and its numbers fit their fields. */
  ghost predicate PacketFits(p: Packet, mtu: nat) {
    Size(p) <= mtu && Encodable(p)
  }

  lemma {:induction false} AckPacketsFit(t: Packet, acks: seq<Ack>, mtu: nat)
    requires PacketFits(t, mtu) && forall i :: 0 <= i < |acks| ==> acks[i].sn < WORD
    ensures forall p :: p in AckPackets(t, acks) ==> PacketFits(p, mtu)
  {
    if acks != [] {
      AckPacketsFit(t, acks[..|acks| - 1], mtu);
    }
  }

  lemma {:induction false} SweepFits(sw0: Sweep, t: Packet, buf: seq<Seg>, e: Env, deadLink: u32, mtu: nat)
    requires sw0.packets == [] && PacketFits(t, mtu) && mtu < HALF
    requires forall i :: 0 <= i < |buf| ==> |buf[i].frag.data| <= mtu - OVERHEAD && buf[i].sn < WORD
    ensures forall p :: p in SweepAll(sw0, t, buf, e, deadLink).packets ==> PacketFits(p, mtu)
  {
    if buf != [] {
      SweepFits(sw0, t, buf[..|buf| - 1], e, deadLink, mtu);
    }
  }

  lemma FlushPacketsFit(k: Kcp)
    requires SendHalf(Wrap32, k) && Sendable(k)
    ensures forall p :: p in Flush(Wrap32, k).packets ==> PacketFits(p, k.cfg.mtu)
  {
    hide SweepAll, MoveToBuf, AckPackets, FlushCong, ProbeTimer, ItemsFrom;
    if k.clock.updated {
      var t, pr, e := Template(k), ProbeTimer(k.probe, k.clock.current), EnvOf(k.cfg, k.rtt.rto, k.clock.current);
      ProbeLeavesWindow(k);
      var window := SendWindow(k.cfg, pr, k.cong);
      MoveShort(k.snd, window, e.current, e.rto, k.cfg.Mss());
      MoveKeeps(Wrap32, k.snd, window, e.current, e.rto);
      var snd := MoveToBuf(Wrap32, k.snd, window, e.current, e.rto);
      SweepFits(Sweep([], [], k.xmit, false, false, k.dead), t, snd.buf, e, k.cfg.deadLink, k.cfg.mtu);
      AckPacketsFit(t, k.rcv.acks, k.cfg.mtu);
    }
  }

  lemma ProbeLeavesWindow(k: Kcp)
    ensures ProbeTimer(k.probe, k.clock.current).rmtWnd == k.probe.rmtWnd
  {}

  /** Every datagram of a flush fits the MTU, is nonempty, and its bytes, read by any endpoint, are
      taken as exactly its segments with nothing left over; the datagrams together are the segments
      flushed, in order. */
  lemma FlushedDatagrams(k: Kcp, reader: Kcp, prevUna: nat, newest: Newest)
    requires SendHalf(Wrap32, k) && Sendable(k)
    ensures var ps := Flush(Wrap32, k).packets;
            var ds := Pack(k.cfg.mtu, ps);
            && Concat(ds) == ps
            && forall d :: d in ds ==>
                 && 0 < |EncodeAll(d)| <= k.cfg.mtu
                 && InputBytes(Wrap32, reader, EncodeAll(d), prevUna, newest) ==
                     InputSegs(Wrap32, reader, d, prevUna, newest)
  {
    hide Flush, InputBytes, InputSegs, EncodeAll, Pack, Encodable, DatagramSize;
    var ps := Flush(Wrap32, k).packets;
    FlushPacketsFit(k);
    PackContents(k.cfg.mtu, ps);
    PackFits(k.cfg.mtu, ps);
    forall d | d in Pack(k.cfg.mtu, ps)
      ensures 0 < |EncodeAll(d)|
      ensures InputBytes(Wrap32, reader, EncodeAll(d), prevUna, newest) == InputSegs(Wrap32, reader, d, prevUna, newest)
    {
      forall p | p in d ensures Encodable(p) {
        assert p in ps;
      }
      KcpRefinement.InputRoundTrip(Wrap32, reader, d, prevUna, newest);
      KcpRefinement.PacketWithin(d, d[0]);
    }
  }

  /** So in every run in which no call strands a piece, every flush sends only such datagrams. */
  lemma {:induction false} EveryFlushFits(conv: u32, ops: seq<Op>)
    requires forall i :: 0 <= i < |ops| ==> !Strands(Run(Wrap32, Create(conv), ops[..i]), ops[i])
    ensures var k := Run(Wrap32, Create(conv), ops); SendHalf(Wrap32, k) && Sendable(k)
  {
    hide SendHalf, Sendable, Step, Strands;
    CreateSendable(conv);
    if ops != [] {
      var n := |ops| - 1;
      forall i | 0 <= i < n ensures !Strands(Run(Wrap32, Create(conv), ops[..n][..i]), ops[..n][i]) {
        assert ops[..n][..i] == ops[..i];
      }
      EveryFlushFits(conv, ops[..n]);
      StepSendable(Run(Wrap32, Create(conv), ops[..n]), ops[n]);
      StepKeeps(Wrap32, Run(Wrap32, Create(conv), ops[..n]), ops[n], 0);
    }
  }

  lemma CreateSendable(conv: u32)
    ensures SendHalf(Wrap32, Create(conv)) && Sendable(Create(conv))
  {}

  // ----- the work buffer -----

  /** The segments in flight when the data part of a flush begins. */
  function InHand(k: Kcp): seq<Seg> {
    MoveToBuf(Wrap32, k.snd, SendWindow(k.cfg, ProbeTimer(k.probe, k.clock.current), k.cong),
              k.clock.current, k.rtt.rto).buf
  }

  function EnvNow(k: Kcp): Env { EnvOf(k.cfg, k.rtt.rto, k.clock.current) }

  /** The pass sends a packet of each touched segment's size and no other. */
  lemma {:induction false} SweepSizes(sw0: Sweep, t: Packet, buf: seq<Seg>, e: Env, deadLink: u32, room: nat)
    requires sw0.packets == []
    ensures (exists p :: p in SweepAll(sw0, t, buf, e, deadLink).packets && Size(p) > room)
       <==> exists i :: 0 <= i < |buf| && !FateOf(buf[i], e).Keep? && OVERHEAD + |buf[i].frag.data| > room
  {
    hide FateOf;
    if buf != [] {
      var init, last := buf[..|buf| - 1], buf[|buf| - 1];
      SweepSizes(sw0, t, init, e, deadLink, room);
      var before, after := SweepAll(sw0, t, init, e, deadLink).packets, SweepAll(sw0, t, buf, e, deadLink).packets;
      var p := PushPacket(t, Touch(last, e), e.current);
      assert Size(p) == OVERHEAD + |last.frag.data|;
      assert forall q :: q in after <==> q in before || (!FateOf(last, e).Keep? && q == p);
      assert forall i :: 0 <= i < |init| ==> init[i] == buf[i];
    }
  }

  /** Every segment of a flush is a bare header or a piece. */
  lemma FlushSizes(k: Kcp, room: nat)
    requires OVERHEAD <= room
    ensures (forall p :: p in Flush(Wrap32, k).packets ==> Size(p) <= room)
       <==> !k.clock.updated || forall i :: 0 <= i < |InHand(k)| && !FateOf(InHand(k)[i], EnvNow(k)).Keep? ==>
                                  OVERHEAD + |InHand(k)[i].frag.data| <= room
  {
    hide SweepAll, MoveToBuf, AckPackets, FlushCong, ProbeTimer, SendWindow, FateOf;
    var ps := Flush(Wrap32, k).packets;
    if k.clock.updated {
      var t, pr, e := Template(k), ProbeTimer(k.probe, k.clock.current), EnvNow(k);
      var sw0 := Sweep([], [], k.xmit, false, false, k.dead);
      SweepSizes(sw0, t, InHand(k), e, k.cfg.deadLink, room);
      BareAcks(t, k.rcv.acks);
      assert ps == AckPackets(t, k.rcv.acks) + ProbePackets(t, k.rcv.acks, pr.ask, pr.tell)
                 + SweepAll(sw0, t, InHand(k), e, k.cfg.deadLink).packets;
    }
  }

  /** Below 2^30 the work buffer is three times the MTU and three headers. */
  lemma PlainRoom(cfg: Config)
    requires cfg.mtu < SAFE
    ensures WorkRoom(cfg) == (cfg.mtu + OVERHEAD) * 3
  {}

  /** A flush writes beyond the work buffer exactly if it sends a segment larger than the buffer: one
      that is new, timed out or due for fast retransmission. */
  lemma OverrunExactly(k: Kcp)
    requires Light(k)
    ensures Overruns(k) <==>
            k.clock.updated && exists i :: 0 <= i < |InHand(k)| && !FateOf(InHand(k)[i], EnvNow(k)).Keep?
                                           && OVERHEAD + |InHand(k)[i].frag.data| > (k.cfg.mtu + OVERHEAD) * 3
  {
    hide Flush, FateOf, ProbeTimer, SendWindow, MoveToBuf, WorkRoom;
    PlainRoom(k.cfg);
    FlushSizes(k, SAFE - 1);
    FlushSizes(k, WorkRoom(k.cfg));
    MoveShort(k.snd, SendWindow(k.cfg, ProbeTimer(k.probe, k.clock.current), k.cong), k.clock.current, k.rtt.rto,
              SAFE - OVERHEAD - 1);
    StaysExactly(k.cfg.mtu, Flush(Wrap32, k).packets, WorkRoom(k.cfg));
  }

  lemma {:induction false} BareAcks(t: Packet, acks: seq<Ack>)
    requires t.data == []
    ensures forall p :: p in AckPackets(t, acks) ==> Size(p) == OVERHEAD
  {
    if acks != [] {
      BareAcks(t, acks[..|acks| - 1]);
    }
  }

  /** While everything is sendable no flush writes beyond the work buffer. */
  lemma SendableStaysInside(k: Kcp)
    requires SendHalf(Wrap32, k) && Sendable(k)
    ensures !Overruns(k)
  {
    hide Flush, Stays, Encodable, WorkRoom;
    FlushPacketsFit(k);
    PlainRoom(k.cfg);
    StaysExactly(k.cfg.mtu, Flush(Wrap32, k).packets, WorkRoom(k.cfg));
  }

  /** A run that writes beyond the buffer: a full segment queued, then the MTU lowered to 50, which
      leaves room for 222 bytes. */
  lemma LoweredMtuOverruns(conv: u32, data: seq<byte>)
    requires |data| == MTU_DEF - OVERHEAD
    ensures var k := Run(Wrap32, Create(conv), [DoUpdate(0), DoSend(data), DoConfigure(SetMtu(50))]);
            Overruns(k) && WorkRoom(k.cfg) == 222 && k.snd.queue == [Frag(0, data)]
  {
    hide Overruns, InHand, Step;
    var k0 := Create(conv);
    var ops1, ops2, ops := [DoUpdate(0)], [DoUpdate(0), DoSend(data)],
        [DoUpdate(0), DoSend(data), DoConfigure(SetMtu(50))];
    FirstUpdate(Wrap32, k0);
    var k1 := Step(Wrap32, k0, DoUpdate(0));
    OneSend(k1, data);
    var k2 := Step(Wrap32, k1, DoSend(data));
    MtuStep(k2, 50);
    var k := Step(Wrap32, k2, DoConfigure(SetMtu(50)));
    assert ops[..2] == ops2 && ops2[..1] == ops1 && ops1[..0] == [];
    assert Run(Wrap32, k0, []) == k0;
    assert Run(Wrap32, k0, ops1) == k1;
    assert Run(Wrap32, k0, ops2) == k2;
    TooLarge(k, data);
  }

  /** The next one: the MTU so large that the size of the buffer wraps to two bytes, and one byte sent. */
  lemma WrappedRoomOverruns(conv: u32)
    ensures var k := Run(Wrap32, Create(conv), [DoUpdate(0), DoConfigure(SetMtu(1431655742)), DoSend([1])]);
            Overruns(k) && WorkRoom(k.cfg) == 2 && Short(k.snd, k.cfg.Mss()) && Numbered(k.rcv)
  {
    hide Overruns, InHand, Step;
    var k0, wide := Create(conv), DoConfigure(SetMtu(1431655742));
    var ops1, ops2, ops := [DoUpdate(0)], [DoUpdate(0), wide], [DoUpdate(0), wide, DoSend([1])];
    FirstUpdate(Wrap32, k0);
    var k1 := Step(Wrap32, k0, DoUpdate(0));
    MtuStep(k1, 1431655742);
    var k2 := Step(Wrap32, k1, wide);
    OneSend(k2, [1]);
    var k := Step(Wrap32, k2, DoSend([1]));
    assert ops[..2] == ops2 && ops2[..1] == ops1 && ops1[..0] == [];
    assert Run(Wrap32, k0, []) == k0;
    assert Run(Wrap32, k0, ops1) == k1;
    assert Run(Wrap32, k0, ops2) == k2;
    OnePiece(k, [1]);
    FlushSizes(k, OVERHEAD);
    NotAllFit(k, OVERHEAD);
  }

  /** And for every MTU of 2^30 or more: two pieces of that size minus a header, each within the MTU. */
  lemma LargeMtuOverruns(conv: u32, mtu: Mtu, data: seq<byte>)
    requires SAFE <= mtu && |data| == SAFE - OVERHEAD
    ensures var ops := [DoUpdate(0), DoConfigure(SetMtu(mtu)), DoConfigure(SetNodelay(-1, -1, -1, 1)),
                        DoSend(data), DoSend(data)];
            var k := Run(Wrap32, Create(conv), ops);
            && Overruns(k) && SendHalf(Wrap32, k) && Short(k.snd, k.cfg.Mss()) && Numbered(k.rcv) && k.cfg.mtu == mtu
  {
    hide Overruns, Step, Run, SendHalf, Update;
    var k0, wide, free := Create(conv), DoConfigure(SetMtu(mtu)), DoConfigure(SetNodelay(-1, -1, -1, 1));
    FirstUpdate(Wrap32, k0);
    var k1 := Step(Wrap32, k0, DoUpdate(0));
    MtuStep(k1, mtu);
    var k2 := Step(Wrap32, k1, wide);
    FreeStep(k2);
    var k3 := Step(Wrap32, k2, free);
    OneSend(k3, data);
    var k4 := Step(Wrap32, k3, DoSend(data));
    OneSend(k4, data);
    var k := Step(Wrap32, k4, DoSend(data));
    FiveSteps(k0, DoUpdate(0), wide, free, DoSend(data), DoSend(data));
    AlwaysSendHalf(conv, [DoUpdate(0), wide, free, DoSend(data), DoSend(data)]);
    TwoPieces(k, data);
  }

  lemma AlwaysSendHalf(conv: u32, ops: seq<Op>)
    ensures SendHalf(Wrap32, Run(Wrap32, Create(conv), ops))
  {
    CreateOk(Wrap32, conv);
    EveryRunKeeps(Wrap32, Create(conv), ops);
  }

  lemma FiveSteps(k: Kcp, a: Op, b: Op, c: Op, d: Op, e: Op)
    ensures Run(Wrap32, k, [a, b, c, d, e])
         == Step(Wrap32, Step(Wrap32, Step(Wrap32, Step(Wrap32, Step(Wrap32, k, a), b), c), d), e)
  {
    hide Step;
    var ops := [a, b, c, d, e];
    assert ops[..4] == [a, b, c, d] && [a, b, c, d][..3] == [a, b, c] && [a, b, c][..2] == [a, b] && [a, b][..1] == [a];
    assert Run(Wrap32, k, [a][..0]) == k;
    assert Run(Wrap32, k, [a]) == Step(Wrap32, k, a);
    assert Run(Wrap32, k, [a, b]) == Step(Wrap32, Step(Wrap32, k, a), b);
    assert Run(Wrap32, k, [a, b, c]) == Step(Wrap32, Step(Wrap32, Step(Wrap32, k, a), b), c);
  }

  /** So 2^30 is exactly where an MTU stops being safe whatever is sent. */
  lemma SafeMtuExactly(mtu: Mtu)
    ensures mtu < SAFE <==>
            forall k :: SendHalf(Wrap32, k) && Short(k.snd, k.cfg.Mss()) && Numbered(k.rcv) && k.cfg.mtu == mtu ==>
                !Overruns(k)
  {
    hide SendHalf, Short, Numbered, Overruns, Run;
    if mtu < SAFE {
      forall k | SendHalf(Wrap32, k) && Short(k.snd, k.cfg.Mss()) && Numbered(k.rcv) && k.cfg.mtu == mtu
        ensures !Overruns(k) {
        SendableStaysInside(k);
      }
    } else {
      LargeMtuOverruns(0, mtu, seq(SAFE - OVERHEAD, _ => 0));
    }
  }

  lemma FirstUpdate(ar: Arith, k: Kcp)
    requires k == Create(k.cfg.conv)
    ensures Update(ar, k, 0) == FlushResult(k.(clock := Clock(0, INTERVAL, true),
                                               cong := Cong(1, k.cfg.Mss(), THRESH_INIT)), [])
    ensures Step(ar, k, DoUpdate(0)) == Update(ar, k, 0).k
  {
    var clock := Tick(k.clock, 0, INTERVAL);
    assert clock == Clock(0, INTERVAL, true);
    var k1 := k.(clock := clock);
    assert ProbeTimer(k1.probe, 0) == k1.probe && MoveToBuf(ar, k1.snd, 0, 0, RTO_DEF) == k1.snd;
    assert SendWindow(k1.cfg, k1.probe, k1.cong) == 0;
  }

  lemma OneSend(k: Kcp, data: seq<byte>)
    requires k.cfg.stream == 0 && |data| <= k.cfg.Mss()
    ensures Step(Wrap32, k, DoSend(data)) == k.(snd := k.snd.(queue := k.snd.queue + [Frag(0, data)]))
  {
    assert data[..|data|] == data && data[0..] == data;
    assert Cut(k.cfg.Mss(), data, 1, false) == [Frag(0, data)];
  }

  lemma MtuStep(k: Kcp, mtu: Mtu)
    ensures Step(Wrap32, k, DoConfigure(SetMtu(mtu))) == k.(cfg := k.cfg.(mtu := mtu))
  {}

  lemma FreeStep(k: Kcp)
    ensures Step(Wrap32, k, DoConfigure(SetNodelay(-1, -1, -1, 1))) == k.(cfg := k.cfg.(nocwnd := 1))
  {}

  /** One piece waiting goes out with the next flush. */
  lemma OnePiece(k: Kcp, data: seq<byte>)
    requires k.snd == Sender(0, 0, [Frag(0, data)], []) && k.clock.updated
    requires k.cong.cwnd >= 1 && 1 <= k.probe.rmtWnd < HALF && k.cfg.sndWnd >= 1
    ensures |InHand(k)| == 1 && !FateOf(InHand(k)[0], EnvNow(k)).Keep? && InHand(k)[0].frag.data == data
  {
    var window := SendWindow(k.cfg, ProbeTimer(k.probe, k.clock.current), k.cong);
    assert 1 <= window < HALF;
    assert Diff(Wrap32, 0, Add(Wrap32, 0, window)) < 0;
    var seg := Seg(0, Frag(0, data), k.clock.current, k.clock.current, k.rtt.rto, 0, 0);
    assert MoveToBuf(Wrap32, k.snd, window, k.clock.current, k.rtt.rto).buf == [seg];
  }

  lemma NotAllFit(k: Kcp, size: nat)
    requires WorkRoom(k.cfg) <= size && !(forall p :: p in Flush(Wrap32, k).packets ==> Size(p) <= size)
    ensures Overruns(k)
  {
    hide Flush, Stays, WorkRoom;
    if !Overruns(k) {
      StaysSizes(Packer([], []), k.cfg.mtu, Flush(Wrap32, k).packets, WorkRoom(k.cfg));
    }
  }

  lemma TooLarge(k: Kcp, data: seq<byte>)
    requires k.cfg.mtu == 50 && |data| == MTU_DEF - OVERHEAD && k.snd == Sender(0, 0, [Frag(0, data)], [])
             && k.clock.updated
    requires k.cong.cwnd >= 1 && 1 <= k.probe.rmtWnd < HALF && k.cfg.sndWnd >= 1
    ensures Overruns(k)
  {
    hide Overruns;
    assert Light(k);
    OverrunExactly(k);
    OnePiece(k, data);
  }

  /** Two pieces waiting go out together. */
  lemma TwoPieces(k: Kcp, data: seq<byte>)
    requires k.snd == Sender(0, 0, [Frag(0, data), Frag(0, data)], []) && k.clock.updated && k.cfg.nocwnd != 0
    requires 2 <= k.probe.rmtWnd < HALF && k.cfg.sndWnd >= 2 && k.rcv.acks == [] && !k.probe.ask && !k.probe.tell
    requires SAFE <= OVERHEAD + |data| <= k.cfg.mtu
    ensures Overruns(k)
  {
    hide Stays, FlushCong, WorkRoom, MoveToBuf, SweepAll, Touch, FateOf;
    var e, t, f := EnvNow(k), Template(k), Frag(0, data);
    var s0, s1 := Seg(0, f, e.current, e.current, e.rto, 0, 0), Seg(1, f, e.current, e.current, e.rto, 0, 0);
    MoveTwo(k.snd, SendWindow(k.cfg, ProbeTimer(k.probe, k.clock.current), k.cong), e.current, e.rto, f);
    PairSweep(Sweep([], [], k.xmit, false, false, k.dead), t, s0, s1, e, k.cfg.deadLink);
    var p, q := PushPacket(t, Touch(s0, e), e.current), PushPacket(t, Touch(s1, e), e.current);
    assert AckPackets(t, []) + ProbePackets(t, [], false, false) + [p, q] == [p, q];
    TouchedData(s0, e);
    TouchedData(s1, e);
    LargePair(k.cfg.mtu, p, q, WorkRoom(k.cfg));
  }

  lemma TouchedData(seg: Seg, e: Env)
    ensures Touch(seg, e).frag == seg.frag
  {}

  lemma MoveTwo(snd: Sender, window: u32, now: u32, rto: u32, f: Frag)
    requires snd == Sender(0, 0, [f, f], []) && 2 <= window < HALF
    ensures MoveToBuf(Wrap32, snd, window, now, rto).buf ==
              [Seg(0, f, now, now, rto, 0, 0), Seg(1, f, now, now, rto, 0, 0)]
  {
    assert Diff(Wrap32, 0, Add(Wrap32, 0, window)) < 0 && Diff(Wrap32, 1, Add(Wrap32, 0, window)) < 0;
    var s0, s1 := Seg(0, f, now, now, rto, 0, 0), Seg(1, f, now, now, rto, 0, 0);
    assert [f, f][1..] == [f] && [f][1..] == [] && [] + [s0] == [s0] && [s0] + [s1] == [s0, s1];
    var one := Sender(0, 1, [f], [s0]);
    assert MoveToBuf(Wrap32, one, window, now, rto) == Sender(0, 2, [], [s0, s1]);
  }

  lemma PairSweep(sw: Sweep, t: Packet, a: Seg, b: Seg, e: Env, deadLink: u32)
    requires sw.packets == [] && a.xmit == 0 && b.xmit == 0
    ensures SweepAll(sw, t, [a, b], e, deadLink).packets
         == [PushPacket(t, Touch(a, e), e.current), PushPacket(t, Touch(b, e), e.current)]
  {
    hide Touch;
    assert [a, b][..1] == [a] && [a][..0] == [];
    assert SweepAll(sw, t, [a], e, deadLink).packets == [PushPacket(t, Touch(a, e), e.current)];
  }
}
