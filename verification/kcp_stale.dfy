/** Why a late delivery must not be mistaken: a run of 2^32 messages after which the first datagram,
    delivered once more, is taken for the next message. */
module KcpStale {
  import opened SeqNum
  import opened Wire
  import opened KcpSpec
  import opened KcpQueues
  import opened KcpSystem
  import opened KcpNearest
  import opened KcpRefinement
  import opened KcpCongestion
  import KcpDatagrams

  const MESSAGE: seq<byte> := [0]
  const MSS: int := MTU_DEF - OVERHEAD

  // ----- one host between two rounds -----

  /** Nothing queued, nothing in flight, nothing to say, and at least one segment allowed. */
  ghost predicate Quiet(conv: u32, k: Kcp) {
    && k.cfg == Create(conv).cfg && k.clock == Clock(0, INTERVAL, true)
    && 1 <= k.probe.rmtWnd <= MAX_WND && !k.probe.ask && !k.probe.tell
    && k.cong.cwnd >= 1 && CongInv(k.cong, MSS)
    && k.snd == Sender(k.snd.nxt, k.snd.nxt, [], [])
    && k.rcv == Receiver(k.rcv.nxt, [], [], [])
  }

  /** The push segment of message number `n` and the acknowledgement it gets. */
  function Push(conv: u32, n: nat, una: nat): Packet { Packet(conv, CMD_PUSH, 0, WND_RCV, 0, n, una, MESSAGE) }

  function Reply(conv: u32, n: nat): Packet { Packet(conv, CMD_ACK, 0, WND_RCV, 0, n, n + 1, []) }

  /** After `n` rounds. */
  ghost predicate Ready(conv: u32, s: System, n: nat) {
    && Quiet(conv, s.a.k) && s.a.k.snd.nxt == n && s.a.k.rcv.nxt == 0 && s.a.plain && |s.a.accepted| == n
    && |s.a.out| == n
    && Quiet(conv, s.b.k) && s.b.k.snd.nxt == 0 && s.b.k.rcv.nxt == n && |s.b.delivered| == n && |s.b.out| == n
    && (n > 0 ==> s.a.out[0] == [Push(conv, 0, 0)] && s.b.out[0] == [Reply(conv, 0)])
  }

  lemma SendOne(conv: u32, h: Host)
    requires Quiet(conv, h.k)
    ensures Act(Unbounded, h, CallSend(MESSAGE))
         == h.(k := h.k.(snd := h.k.snd.(queue := [Frag(0, MESSAGE)])), accepted := h.accepted + [MESSAGE])
  {
    assert MESSAGE[..1] == MESSAGE && MESSAGE[1..] == [];
    assert Cut(MSS, MESSAGE, 1, false) == [Frag(0, MESSAGE)];
  }

  /** Packing a single short segment. */
  lemma PackOne(mtu: nat, p: Packet)
    requires Size(p) <= mtu
    ensures Pack(mtu, [p]) == [[p]]
  {
    assert [p][..0] == [];
    assert EmitAll(Packer([], []), mtu, [p]) == Emit(Packer([], []), mtu, p);
    assert DatagramSize([]) == 0 && [] + [p] == [p];
  }

  /** The flush that puts the message into flight. */
  lemma FlushOne(conv: u32, h: Host, k0: Kcp) returns (h': Host, seg: Seg)
    requires Quiet(conv, k0) && h.k == k0.(snd := k0.snd.(queue := [Frag(0, MESSAGE)]))
    ensures h' == Act(Unbounded, h, CallFlush) && seg.sn == k0.snd.nxt
    ensures h'.k == k0.(snd := Sender(k0.snd.nxt, k0.snd.nxt + 1, [], [seg]), probe := k0.probe.(ts := 0, wait := 0))
    ensures h'.out == h.out + [[Push(conv, k0.snd.nxt, k0.rcv.nxt)]]
    ensures h'.accepted == h.accepted && h'.delivered == h.delivered && h'.plain == h.plain
  {
    var k, t := h.k, Template(h.k);
    var pr, e := ProbeTimer(k.probe, 0), EnvOf(k.cfg, k.rtt.rto, 0);
    var window := SendWindow(k.cfg, pr, k.cong);
    assert window >= 1;
    var new0 := Seg(k.snd.nxt, Frag(0, MESSAGE), 0, 0, k.rtt.rto, 0, 0);
    var moved := Sender(k.snd.nxt, k.snd.nxt + 1, [], [new0]);
    MoveLast(k.snd, window, k.rtt.rto);
    seg := Touch(new0, e);
    var p := Push(conv, k.snd.nxt, k.rcv.nxt);
    SweepOne(conv, k, t, new0, e);
    PackOne(MTU_DEF, p);
    assert AckPackets(t, k.rcv.acks) + ProbePackets(t, k.rcv.acks, pr.ask, pr.tell) + [p] == [p];
    h' := Act(Unbounded, h, CallFlush);
  }

  lemma MoveLast(snd: Sender, window: u32, rto: u32)
    requires window >= 1 && snd == Sender(snd.nxt, snd.nxt, [Frag(0, MESSAGE)], [])
    ensures MoveToBuf(Unbounded, snd, window, 0, rto)
         == Sender(snd.nxt, snd.nxt + 1, [], [Seg(snd.nxt, Frag(0, MESSAGE), 0, 0, rto, 0, 0)])
  {}

  lemma SweepOne(conv: u32, k: Kcp, t: Packet, seg: Seg, e: Env)
    requires k.cfg == Create(conv).cfg && t == Template(k) && k.rcv.queue == [] && e.current == 0
    requires seg.xmit == 0 && seg.frag == Frag(0, MESSAGE)
    ensures var sw := SweepAll(Sweep([], [], k.xmit, false, false, k.dead), t, [seg], e, k.cfg.deadLink);
            sw == Sweep([Touch(seg, e)], [Push(conv, seg.sn, k.rcv.nxt)], k.xmit, false, false, k.dead)
  {
    assert [seg][..0] == [];
    assert Touch(seg, e).xmit == 1;
  }

  // ----- the other side -----

  /** The push segment of the next message arrives: it is handed to the receive queue and acknowledged. */
  lemma TakeOne(conv: u32, h: Host, n: nat, p: Packet)
    requires Quiet(conv, h.k) && h.k.snd.nxt == 0 && p == Push(conv, n, 0) && Read(h.k, p) == p.(sn := h.k.rcv.nxt)
    ensures ReadDatagram(h, [p])
         == h.(k := h.k.(probe := h.k.probe.(rmtWnd := WND_RCV),
                         rcv := Receiver(h.k.rcv.nxt + 1, [Item(h.k.rcv.nxt, Frag(0, MESSAGE))], [],
                                         [Ack(h.k.rcv.nxt, 0)])))
  {
    var k, n := h.k, h.k.rcv.nxt;
    var q := p.(sn := n);
    var it := Item(n, Frag(0, MESSAGE));
    var rcv1 := Receiver(n, [], [it], [Ack(n, 0)]);
    assert InsertBuf(Unbounded, [], it) == [it];
    assert Drain(Unbounded, rcv1, WND_RCV) == Receiver(n + 1, [it], [], [Ack(n, 0)]) by {
      assert rcv1.buf[1..] == [] && [] + [it] == [it];
    }
    assert k.rcv.acks + [Ack(n, 0)] == [Ack(n, 0)];
    assert TakePush(Unbounded, k.rcv, WND_RCV, q) == Receiver(n + 1, [it], [], [Ack(n, 0)]);
    var k1 := InputSeg(Unbounded, k, q);
    assert [p][1..] == [];
    hide Read;
    assert ReadSegs(k, [p], 0, NoAck) == ReadSegs(k1, [], 0, NoAck);
  }

  /** The application takes the message, whatever its number. */
  lemma RecvOne(ar: Arith, h: Host, sn: nat)
    requires h.k.rcv.queue == [Item(sn, Frag(0, MESSAGE))] && h.k.rcv.buf == [] && h.k.cfg.rcvWnd > 1 && !h.k.probe.tell
    ensures Act(ar, h, CallRecv(1))
         == h.(k := h.k.(rcv := h.k.rcv.(queue := [])), delivered := h.delivered + [MESSAGE])
  {
    var queue := h.k.rcv.queue;
    assert MergeCount(queue) == 1 && queue[..1] == queue && queue[1..] == [] && queue[..0] == [];
    assert ItemBytes(queue) == ItemBytes([]) + MESSAGE == MESSAGE;
  }

  lemma ReplyPackets(conv: u32, t: Packet, n: nat)
    requires t == Packet(conv, CMD_ACK, 0, WND_RCV, 0, 0, n + 1, [])
    ensures AckPackets(t, [Ack(n, 0)]) == [Reply(conv, n)] && ProbePackets(t, [Ack(n, 0)], false, false) == []
  {
    assert [Ack(n, 0)][..0] == [];
    assert AckPackets(t, []) == [];
  }

  lemma ReplyFlush(conv: u32, k: Kcp, k0: Kcp, n: nat)
    requires Quiet(conv, k0) && k0.rcv.nxt == n + 1 && k == k0.(rcv := k0.rcv.(acks := [Ack(n, 0)]))
    ensures Flush(Unbounded, k) == FlushResult(k0.(probe := k0.probe.(ts := 0, wait := 0)), [Reply(conv, n)])
  {
    hide FlushSend, AckPackets, ProbePackets, CongInv;
    var t := Template(k);
    var pr, e := ProbeTimer(k.probe, 0), EnvOf(k.cfg, k.rtt.rto, 0);
    NoDataFlush(k, SendWindow(k.cfg, pr, k.cong), e, t);
    ReplyPackets(conv, t, n);
    assert [Reply(conv, n)] + [] + [] == [Reply(conv, n)];
  }

  lemma FlushReply(conv: u32, h: Host, k0: Kcp, n: nat)
    requires Quiet(conv, k0) && k0.rcv.nxt == n + 1 && h.k == k0.(rcv := k0.rcv.(acks := [Ack(n, 0)]))
    ensures var h' := Act(Unbounded, h, CallFlush);
            && h'.k == k0.(probe := k0.probe.(ts := 0, wait := 0)) && h'.out == h.out + [[Reply(conv, n)]]
            && h'.accepted == h.accepted && h'.delivered == h.delivered && h'.plain == h.plain
  {
    hide Flush, Pack, CongInv;
    ReplyFlush(conv, h.k, k0, n);
    PackOne(MTU_DEF, Reply(conv, n));
  }

  lemma NoDataFlush(k: Kcp, window: u32, e: Env, t: Packet)
    requires k.snd.queue == [] && k.snd.buf == [] && k.cong.cwnd >= 1
    ensures FlushSend(Unbounded, k.cfg, k.snd, k.cong, window, e, t, k.xmit, k.dead)
         == DataFlush(k.snd, k.cong, k.xmit, k.dead, [])
  {
    assert MoveToBuf(Unbounded, k.snd, window, e.current, e.rto) == k.snd;
  }

  /** The acknowledgement comes back and empties the sender. */
  lemma TakeReply(conv: u32, h: Host, k0: Kcp, seg: Seg)
    requires Quiet(conv, k0) && seg.sn == k0.snd.nxt && h.k == k0.(snd := Sender(k0.snd.nxt, k0.snd.nxt + 1, [], [seg]))
    ensures var d := [Reply(conv, k0.snd.nxt)];
            var h' := ReadDatagram(h, d);
            && Clear(h.k, d) && Quiet(conv, h'.k) && h'.k.snd.nxt == k0.snd.nxt + 1 && h'.k.rcv == k0.rcv
            && h' == h.(k := h'.k)
  {
    var k, n, p := h.k, k0.snd.nxt, Reply(conv, k0.snd.nxt);
    assert Read(k, p) == p;
    var snd1 := Sender(n + 1, n + 1, [], []);
    assert ParseUna(Unbounded, [seg], n + 1) == [] by {
      assert [seg][1..] == [];
    }
    assert TakeUna(Unbounded, k, p) == k.(probe := k.probe.(rmtWnd := WND_RCV), snd := snd1);
    assert ShrinkBuf(ParseAck(Unbounded, snd1, n)) == snd1;
    var k1 := InputSeg(Unbounded, k, p);
    assert k1 == k.(probe := k.probe.(rmtWnd := WND_RCV), snd := snd1, rtt := k1.rtt);
    assert [p][1..] == [];
    hide Read, InputSeg;
    assert ReadSegs(k, [p], n, NoAck) == ReadSegs(k1, [], n, Newest(n, 0));
    assert ParseFastack(Unbounded, snd1, n, 0) == snd1;
    GrowKeeps(k.cong, WND_RCV, MSS);
  }

  // ----- rounds -----

  lemma Extend(conv: u32, evs: seq<Event>, ev: Event)
    ensures NearRun(conv, evs + [ev]) == NearNext(NearRun(conv, evs), ev)
    ensures ClearRun(conv, evs + [ev]) <==> ClearRun(conv, evs) && ClearEvent(NearRun(conv, evs), ev)
  {
    assert (evs + [ev])[..|evs|] == evs;
  }

  /** One round: a message sent, carried, received and acknowledged. */
  lemma Round(conv: u32, evs: seq<Event>, n: nat) returns (evs': seq<Event>)
    requires (forall ev :: ev in evs ==> ModestEvent(ev)) && ClearRun(conv, evs) && Ready(conv, NearRun(conv, evs), n)
    ensures (forall ev :: ev in evs' ==> ModestEvent(ev)) && ClearRun(conv, evs')
            && Ready(conv, NearRun(conv, evs'), n + 1)
  {
    hide NearRun, ClearRun, NearNext, Ready, Clear;
    var s := NearRun(conv, evs);
    var e1, e2 := evs + [Local(true, CallSend(MESSAGE))],
        evs + [Local(true, CallSend(MESSAGE))] + [Local(true, CallFlush)];
    var e3 := e2 + [Deliver(false, n)];
    var e5 := e3 + [Local(false, CallRecv(1))] + [Local(false, CallFlush)];
    evs' := e5 + [Deliver(true, n)];
    Extend(conv, evs, Local(true, CallSend(MESSAGE)));
    Extend(conv, e1, Local(true, CallFlush));
    Extend(conv, e2, Deliver(false, n));
    Extend(conv, e3, Local(false, CallRecv(1)));
    Extend(conv, e3 + [Local(false, CallRecv(1))], Local(false, CallFlush));
    Extend(conv, e5, Deliver(true, n));
    RoundState(conv, s, n);
  }

  /** What the six events make of the state. */
  lemma RoundState(conv: u32, s: System, n: nat)
    requires Ready(conv, s, n)
    ensures var s2 := NearNext(NearNext(s, Local(true, CallSend(MESSAGE))), Local(true, CallFlush));
            var s3 := NearNext(s2, Deliver(false, n));
            var s5 := NearNext(NearNext(s3, Local(false, CallRecv(1))), Local(false, CallFlush));
            && ClearEvent(s, Local(true, CallSend(MESSAGE)))
            && ClearEvent(s2, Deliver(false, n)) && ClearEvent(s5, Deliver(true, n))
            && Ready(conv, NearNext(s5, Deliver(true, n)), n + 1)
  {
    hide Quiet, Act, ReadDatagram, Clear, Push, Reply, Read;
    var a0, b0 := s.a.k, s.b.k;
    QuietParts(conv, a0);
    QuietParts(conv, b0);
    SendOne(conv, s.a);
    var a1 := Act(Unbounded, s.a, CallSend(MESSAGE));
    var a2, seg := FlushOne(conv, a1, a0);
    var p := Push(conv, n, 0);
    assert a2.out[n] == [p];
    PushIsClear(conv, s.b.k, p, n);
    TakeOne(conv, s.b, n, p);
    var b3 := ReadDatagram(s.b, [p]);
    RecvOne(Unbounded, b3, n);
    var b4 := Act(Unbounded, b3, CallRecv(1));
    var b0' := b0.(probe := b0.probe.(rmtWnd := WND_RCV), rcv := Receiver(n + 1, [], [], []));
    StillQuiet(conv, b0, b0');
    FlushReply(conv, b4, b0', n);
    var b5 := Act(Unbounded, b4, CallFlush);
    StillQuiet(conv, b0', b5.k);
    assert b5.out[n] == [Reply(conv, n)];
    var a0' := a0.(probe := a0.probe.(ts := 0, wait := 0));
    StillQuiet(conv, a0, a0');
    TakeReply(conv, a2, a0', seg);
    QuietParts(conv, ReadDatagram(a2, [Reply(conv, n)]).k);
  }

  lemma QuietParts(conv: u32, k: Kcp)
    requires Quiet(conv, k)
    ensures k.snd == Sender(k.snd.nxt, k.snd.nxt, [], []) && k.rcv == Receiver(k.rcv.nxt, [], [], [])
    ensures k.cfg == Create(conv).cfg && 1 <= k.probe.rmtWnd <= MAX_WND && !k.probe.ask && !k.probe.tell
  {}

  /** Idle hosts stay idle when only their windows, timers and counts change. */
  lemma StillQuiet(conv: u32, k: Kcp, k': Kcp)
    requires Quiet(conv, k) && k'.snd == k.snd && k'.rcv == Receiver(k'.rcv.nxt, [], [], []) && k'.cfg == k.cfg
    requires k'.clock == k.clock && k'.cong == k.cong
    requires 1 <= k'.probe.rmtWnd <= MAX_WND && !k'.probe.ask && !k'.probe.tell
    ensures Quiet(conv, k')
  {}

  /** The message is read by its own number; nothing about it is late. */
  lemma PushIsClear(conv: u32, k: Kcp, p: Packet, n: nat)
    requires Quiet(conv, k) && k.snd.nxt == 0 && k.rcv.nxt == n && p == Push(conv, n, 0)
    ensures Read(k, p) == p == p.(sn := n) && Clear(k, [p])
  {
    assert [p][1..] == [];
  }

  lemma Begin(conv: u32) returns (evs: seq<Event>)
    ensures (forall ev :: ev in evs ==> ModestEvent(ev)) && ClearRun(conv, evs) && Ready(conv, NearRun(conv, evs), 0)
  {
    evs := [Local(true, CallUpdate(0))] + [Local(false, CallUpdate(0))];
    Extend(conv, [], Local(true, CallUpdate(0)));
    assert [] + [Local(true, CallUpdate(0))] == [Local(true, CallUpdate(0))];
    Extend(conv, [Local(true, CallUpdate(0))], Local(false, CallUpdate(0)));
    StartQuiet(conv);
  }

  lemma StartQuiet(conv: u32)
    ensures var h := Act(Unbounded, Started(conv), CallUpdate(0)); h == Started(conv).(k := h.k) && Quiet(conv, h.k)
    ensures Act(Unbounded, Started(conv), CallUpdate(0)).k.snd.nxt ==
              Act(Unbounded, Started(conv), CallUpdate(0)).k.rcv.nxt == 0
  {
    hide Update;
    KcpDatagrams.FirstUpdate(Unbounded, Create(conv));
    assert Pack(MTU_DEF, []) == [];
    assert Moved([], []) == [];
  }

  lemma {:induction false} Rounds(conv: u32, n: nat) returns (evs: seq<Event>)
    ensures (forall ev :: ev in evs ==> ModestEvent(ev)) && ClearRun(conv, evs) && Ready(conv, NearRun(conv, evs), n)
  {
    hide NearRun, ClearRun, Ready, ModestEvent;
    if n == 0 {
      evs := Begin(conv);
    } else {
      var before := Rounds(conv, n - 1);
      evs := Round(conv, before, n - 1);
    }
  }

  // ----- the failure -----

  /** The very first message, one number space later, is read as the one expected next. */
  lemma ReadAgain(conv: u32, k: Kcp, p: Packet)
    requires Quiet(conv, k) && k.snd.nxt == 0 && k.rcv.nxt == WORD && p == Push(conv, 0, 0)
    ensures Read(k, p) == p.(sn := WORD)
  {}

  /** Without the condition on deliveries the promise fails: in some run of 2^32 messages, within the limits
      and clear until the first datagram comes once more, one message more is handed out than was sent. */
  lemma LateDeliveryBreaksPrefix(conv: u32) returns (evs: seq<Event>)
    ensures |evs| >= 2 && (forall ev :: ev in evs ==> ModestEvent(ev)) && ClearRun(conv, evs[..|evs| - 2])
    ensures evs[|evs| - 2] == Deliver(false, 0)
    ensures var s := RunAll(Wrap32, conv, evs); s.a.plain && |s.a.accepted| == WORD && |s.b.delivered| == WORD + 1
  {
    hide NearRun, ClearRun, Quiet, RunAll, Act, ReadDatagram, Push;
    var before := Rounds(conv, WORD);
    var late := before + [Deliver(false, 0)];
    evs := late + [Local(false, CallRecv(1))];
    var s := NearRun(conv, before);
    Extend(conv, before, Deliver(false, 0));
    assert late[..|late| - 1] == before && evs[..|evs| - 2] == before && evs[..|evs| - 1] == late;
    WrappedRunRefines(conv, late);
    ReadAgain(conv, s.b.k, Push(conv, 0, 0));
    QuietParts(conv, s.b.k);
    TakeOne(conv, s.b, 0, Push(conv, 0, 0));
    var b := ReadDatagram(s.b, s.a.out[0]);
    assert ImgKcp(b.k).rcv.queue == [Item(0, Frag(0, MESSAGE))];
    RecvOne(Wrap32, ImgHost(b), 0);
    RunExtend(conv, late, Local(false, CallRecv(1)));
  }

  /** A late acknowledgement, more than half the number space behind, is read as one of everything. */
  lemma TakeLateReply(conv: u32, h: Host, k0: Kcp, seg: Seg)
    requires Quiet(conv, k0) && k0.snd.nxt == HALF + 2 && seg.sn == HALF + 2
    requires h.k == k0.(snd := Sender(HALF + 2, HALF + 3, [], [seg]))
    ensures var k := ReadDatagram(h, [Reply(conv, 0)]).k; k.snd == Sender(HALF + 3, HALF + 3, [], [])
  {
    var k, p := h.k, Reply(conv, 0);
    var q := p.(una := WORD + 1, sn := WORD);
    assert Read(k, p) == q;
    var snd1 := Sender(HALF + 3, HALF + 3, [], []);
    assert ParseUna(Unbounded, [seg], WORD + 1) == [] by {
      assert [seg][1..] == [];
    }
    assert ShrinkBuf(ParseAck(Unbounded, snd1, WORD)) == snd1;
    var k1 := InputSeg(Unbounded, k, q);
    assert k1.snd == snd1;
    OnlySeg(k, p, HALF + 2);
  }

  lemma OnlySeg(k: Kcp, p: Packet, prevUna: nat)
    requires p.conv == k.cfg.conv && KnownCmd(p.cmd) && InputSeg(Unbounded, k, Read(k, p)).snd.buf == []
    ensures ReadSegs(k, [p], prevUna, NoAck).snd == InputSeg(Unbounded, k, Read(k, p)).snd
  {
    hide Read, InputSeg;
    assert [p][1..] == [];
    var newest := ReadNewest(NoAck, Read(k, p));
    assert ReadSegs(k, [p], prevUna, NoAck) ==
        FinishInput(Unbounded, InputSeg(Unbounded, k, Read(k, p)), prevUna, newest);
  }

  /** The second promise fails twice as early: in some run of 2^31 messages, within the limits and clear until
      the first acknowledgement comes once more, a piece is nowhere any longer. */
  lemma LateReplyLosesSegment(conv: u32) returns (evs: seq<Event>)
    ensures |evs| >= 1 && (forall ev :: ev in evs ==> ModestEvent(ev)) && ClearRun(conv, evs[..|evs| - 1])
    ensures evs[|evs| - 1] == Deliver(true, 0)
    ensures var s := RunAll(Wrap32, conv, evs);
            && !Covered(s.a.k.snd, s.b.k.rcv, 0)
            && |s.a.accepted| == HALF + 3 && |s.b.delivered| == HALF + 2 && s.b.k.rcv.queue == []
            && s.a.k.snd.queue == []
  {
    hide NearRun, ClearRun, Quiet, RunAll, Act, ReadDatagram, Push, Reply, Clear;
    var before := Rounds(conv, HALF + 2);
    var s := NearRun(conv, before);
    var e1 := before + [Local(true, CallSend(MESSAGE))];
    var e2 := e1 + [Local(true, CallFlush)];
    evs := e2 + [Deliver(true, 0)];
    Extend(conv, before, Local(true, CallSend(MESSAGE)));
    Extend(conv, e1, Local(true, CallFlush));
    Extend(conv, e2, Deliver(true, 0));
    assert evs[..|evs| - 1] == e2;
    QuietParts(conv, s.a.k);
    QuietParts(conv, s.b.k);
    SendOne(conv, s.a);
    var a1 := Act(Unbounded, s.a, CallSend(MESSAGE));
    var a2, seg := FlushOne(conv, a1, s.a.k);
    var k0 := s.a.k.(probe := s.a.k.probe.(ts := 0, wait := 0));
    StillQuiet(conv, s.a.k, k0);
    TakeLateReply(conv, a2, k0, seg);
    WrappedRunRefines(conv, evs);
    Uncovered(ReadDatagram(a2, [Reply(conv, 0)]).k.snd, s.b.k.rcv);
    HistoryKept(a2, [Reply(conv, 0)]);
  }

  lemma HistoryKept(h: Host, d: Datagram)
    ensures ReadDatagram(h, d).accepted == h.accepted && ReadDatagram(h, d).delivered == h.delivered
  {}

  lemma Uncovered(snd: Sender, rcv: Receiver)
    requires snd == Sender(HALF + 3, HALF + 3, [], []) && rcv.nxt == HALF + 2 && rcv.buf == []
    ensures !Covered(ImgSender(snd), ImgReceiver(rcv), 0)
  {}

  lemma RunExtend(conv: u32, evs: seq<Event>, ev: Event)
    ensures RunAll(Wrap32, conv, evs + [ev]) == Next(Wrap32, RunAll(Wrap32, conv, evs), ev)
  {
    assert (evs + [ev])[..|evs|] == evs;
  }
}
