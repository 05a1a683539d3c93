/** No reachable state is stuck: by flushes, updates, deliveries and receives alone everything accepted can still be
    handed out. */
module KcpProgress {
  import opened SeqNum
  import opened Wire
  import opened KcpSpec
  import opened KcpQueues
  import opened KcpFraming
  import opened KcpSystem
  import Seqs

  // ----- runs that only go on -----

  function RunOn(s: System, evs: seq<Event>): System {
    if evs == [] then s else Next(Unbounded, RunOn(s, evs[..|evs| - 1]), evs[|evs| - 1])
  }

  function Of(s: System, atA: bool): Host { if atA then s.a else s.b }

  /** Nothing new is asked for, and no clock runs backward. */
  predicate QuietEvent(s: System, ev: Event) {
    match ev
    case Local(atA, call) =>
      && !call.CallSend? && !call.CallConfigure?
      && (call.CallUpdate? ==> TimeDiff(Of(s, atA).k.clock.current, call.now) <= 0)
    case Deliver(_, _) => true
  }

  predicate Quietly(s: System, evs: seq<Event>) {
    evs != [] ==> Quietly(s, evs[..|evs| - 1]) && QuietEvent(RunOn(s, evs[..|evs| - 1]), evs[|evs| - 1])
  }

  lemma {:induction false} RunOnAppend(s: System, evs: seq<Event>, more: seq<Event>)
    ensures RunOn(s, evs + more) == RunOn(RunOn(s, evs), more)
    ensures Quietly(s, evs + more) <==> Quietly(s, evs) && Quietly(RunOn(s, evs), more)
  {
    hide Next, QuietEvent;
    if more == [] {
      assert evs + more == evs;
    } else {
      RunOnAppend(s, evs, more[..|more| - 1]);
      assert (evs + more)[..|evs + more| - 1] == evs + more[..|more| - 1];
    }
  }

  lemma {:induction false} RunAllAppend(conv: u32, evs: seq<Event>, more: seq<Event>)
    ensures RunAll(Unbounded, conv, evs + more) == RunOn(RunAll(Unbounded, conv, evs), more)
  {
    hide Next;
    if more == [] {
      assert evs + more == evs;
    } else {
      RunAllAppend(conv, evs, more[..|more| - 1]);
      assert (evs + more)[..|evs + more| - 1] == evs + more[..|more| - 1];
    }
  }

  // ----- what holds in every reachable state, besides the invariant -----

  /** One conversation, room to send at all, and no deliverable piece held back while the receive queue is
      shorter than any window. */
  ghost predicate Steady(conv: u32, h: Host) {
    h.k.cfg.conv == conv && h.k.cfg.sndWnd >= 1 && Drained(h.k.rcv, WND_RCV)
  }

  ghost predicate Live(conv: u32, s: System) { SystemInv(s) && Steady(conv, s.a) && Steady(conv, s.b) }

  lemma DrainedAnyway(rcv: Receiver, wnd: nat)
    requires wnd >= WND_RCV
    ensures Drained(Drain(Unbounded, rcv, wnd), WND_RCV) && Drain(Unbounded, rcv, wnd).acks == rcv.acks
  {
    var n := DrainShape(Unbounded, rcv, wnd);
  }

  lemma PushDrained(rcv: Receiver, wnd: nat, p: Packet)
    requires wnd >= WND_RCV && Drained(rcv, WND_RCV)
    ensures Drained(TakePush(Unbounded, rcv, wnd, p), WND_RCV)
  {
    hide Drain, InsertBuf;
    var rcv1 := rcv.(acks := rcv.acks + [Ack(p.sn, p.ts)]);
    DrainedAnyway(rcv1.(buf := InsertBuf(Unbounded, rcv1.buf, Item(p.sn, Frag(p.frg, p.data)))), wnd);
  }

  lemma {:induction false} InputDrained(k: Kcp, d: Datagram, prevUna: nat, newest: Newest)
    requires k.cfg.rcvWnd >= WND_RCV && Drained(k.rcv, WND_RCV)
    ensures var k' := InputSegs(Unbounded, k, d, prevUna, newest).k; k'.cfg == k.cfg && Drained(k'.rcv, WND_RCV)
    decreases |d|
  {
    hide TakePush, ParseUna, ParseAck, ParseFastack, ShrinkBuf, UpdateAck, Grow, Drained;
    if d != [] && d[0].conv == k.cfg.conv && KnownCmd(d[0].cmd) {
      PushDrained(k.rcv, k.cfg.rcvWnd, d[0]);
      InputDrained(InputSeg(Unbounded, k, d[0]), d[1..], prevUna, NewestAfter(Unbounded, newest, d[0]));
    }
  }

  lemma RecvDrained(k: Kcp, len: int)
    requires k.cfg.rcvWnd >= WND_RCV && Drained(k.rcv, WND_RCV)
    ensures var k' := Recv(Unbounded, k, len).k; k'.cfg == k.cfg && Drained(k'.rcv, WND_RCV)
  {
    hide Drain, MergeCount, ItemBytes, PeekSize;
    var n := MergeCount(k.rcv.queue);
    DrainedAnyway(if len < 0 then k.rcv else k.rcv.(queue := k.rcv.queue[n..]), k.cfg.rcvWnd);
  }

  lemma FlushRcv(k: Kcp)
    ensures var k' := Flush(Unbounded, k).k; k'.cfg == k.cfg && Drained(k'.rcv, WND_RCV) == Drained(k.rcv, WND_RCV)
  {
    hide FlushSend, ProbeTimer;
  }

  lemma SteadyAct(conv: u32, h: Host, call: Call)
    requires Steady(conv, h) && ValidConfig(h.k.cfg)
    ensures Steady(conv, Act(Unbounded, h, call))
  {
    hide Flush, Recv, Send, Pack, Drained;
    match call
    case CallSend(data) =>
    case CallRecv(len) => RecvDrained(h.k, len);
    case CallFlush => FlushRcv(h.k);
    case CallUpdate(now) => FlushRcv(h.k.(clock := Tick(h.k.clock, now, h.k.cfg.interval)));
    case CallConfigure(s) =>
  }

  lemma LiveStep(conv: u32, s: System, ev: Event)
    requires Live(conv, s)
    ensures Live(conv, Next(Unbounded, s, ev))
  {
    hide Act, Steady, Link, InputSegs, SendSide, AcksOk, OutOk;
    NextStep(s, ev);
    match ev
    case Local(atA, call) => SteadyAct(conv, Of(s, atA), call);
    case Deliver(toA, i) =>
      if toA && i < |s.b.out| {
        SteadyReceive(conv, s.a, s.b.out[i]);
      }
      if !toA && i < |s.a.out| {
        SteadyReceive(conv, s.b, s.a.out[i]);
      }
  }

  lemma SteadyReceive(conv: u32, h: Host, d: Datagram)
    requires Steady(conv, h) && ValidConfig(h.k.cfg)
    ensures Steady(conv, Receive(Unbounded, h, d))
  {
    hide InputSegs, Drained;
    InputDrained(h.k, d, h.k.snd.una, NoAck);
  }

  /** So it is in every reachable state. */
  lemma {:induction false} EveryStateLive(conv: u32, evs: seq<Event>)
    ensures Live(conv, RunAll(Unbounded, conv, evs))
  {
    hide Live, Next;
    if evs == [] {
      StartedLive(conv);
    } else {
      EveryStateLive(conv, evs[..|evs| - 1]);
      LiveStep(conv, RunAll(Unbounded, conv, evs[..|evs| - 1]), evs[|evs| - 1]);
    }
  }

  lemma StartedLive(conv: u32)
    ensures Live(conv, System(Started(conv), Started(conv)))
  {
    StartedOk(conv);
  }

  // ----- going on -----

  function Log(h: Host): seq<Frag> { h.sent + h.k.snd.queue }

  /** What quiet events leave as it was, and what only grows. */
  ghost predicate Onward(h: Host, h': Host) {
    && h'.k.cfg == h.k.cfg && h'.accepted == h.accepted && h'.plain == h.plain && Log(h') == Log(h)
    && h.k.rcv.nxt <= h'.k.rcv.nxt && |h.sent| <= |h'.sent| && h.delivered <= h'.delivered
  }

  lemma OnwardTwice(h: Host, h1: Host, h2: Host)
    requires Onward(h, h1) && Onward(h1, h2)
    ensures Onward(h, h2)
  {}

  lemma DrainNxt(rcv: Receiver, wnd: nat)
    ensures Drain(Unbounded, rcv, wnd).nxt >= rcv.nxt
    ensures Drain(Unbounded, rcv, wnd).nxt == rcv.nxt ==> Drain(Unbounded, rcv, wnd) == rcv
  {
    var n := DrainShape(Unbounded, rcv, wnd);
    assert rcv.queue + rcv.buf[..0] == rcv.queue && rcv.buf[0..] == rcv.buf;
  }

  /** A piece moves the next expected number up or leaves the receive queue alone. */
  lemma PushNxt(rcv: Receiver, wnd: nat, p: Packet)
    ensures var r := TakePush(Unbounded, rcv, wnd, p);
            r.nxt >= rcv.nxt && (r.nxt == rcv.nxt ==> r.queue == rcv.queue)
  {
    hide Drain, InsertBuf;
    var rcv1 := rcv.(acks := rcv.acks + [Ack(p.sn, p.ts)]);
    DrainNxt(rcv1.(buf := InsertBuf(Unbounded, rcv1.buf, Item(p.sn, Frag(p.frg, p.data)))), wnd);
  }

  lemma SegOnward(k: Kcp, p: Packet)
    ensures var k' := InputSeg(Unbounded, k, p);
            && k'.cfg == k.cfg && k'.snd.queue == k.snd.queue && k'.rcv.nxt >= k.rcv.nxt && k'.clock == k.clock
            && (k'.rcv.nxt == k.rcv.nxt ==> k'.rcv.queue == k.rcv.queue)
  {
    hide TakePush, ParseUna, RemoveSeg, UpdateAck, TimeDiff;
    PushNxt(k.rcv, k.cfg.rcvWnd, p);
  }

  lemma FinishOnward(k: Kcp, prevUna: nat, newest: Newest)
    ensures var k' := FinishInput(Unbounded, k, prevUna, newest);
            && k' == k.(snd := k'.snd, cong := k'.cong) && k'.snd == k.snd.(buf := k'.snd.buf)
            && (k.snd.buf == [] ==> k'.snd.buf == [])
  {
    hide Grow;
  }

  lemma {:induction false} InputOnward(k: Kcp, d: Datagram, prevUna: nat, newest: Newest)
    ensures var k' := InputSegs(Unbounded, k, d, prevUna, newest).k;
            && k'.cfg == k.cfg && k'.snd.queue == k.snd.queue && k'.rcv.nxt >= k.rcv.nxt && k'.clock == k.clock
    decreases |d|
  {
    hide InputSeg, FinishInput;
    if d == [] {
      FinishOnward(k, prevUna, newest);
    } else if d[0].conv == k.cfg.conv && KnownCmd(d[0].cmd) {
      SegOnward(k, d[0]);
      InputOnward(InputSeg(Unbounded, k, d[0]), d[1..], prevUna, NewestAfter(Unbounded, newest, d[0]));
    }
  }

  lemma ReceiveOnward(h: Host, d: Datagram)
    ensures Onward(h, Receive(Unbounded, h, d))
  {
    hide InputSegs;
    InputOnward(h.k, d, h.k.snd.una, NoAck);
  }

  lemma RecvOnward(h: Host, len: int)
    ensures Onward(h, Act(Unbounded, h, CallRecv(len))) && Act(Unbounded, h, CallRecv(len)).k.clock == h.k.clock
  {
    hide Drain, MergeCount, ItemBytes, PeekSize;
    var n := MergeCount(h.k.rcv.queue);
    DrainNxt(if len < 0 then h.k.rcv else h.k.rcv.(queue := h.k.rcv.queue[n..]), h.k.cfg.rcvWnd);
  }

  /** The moment of a flush, and its outcome. */
  function Timed(h: Host, c: Clock): Host { h.(k := h.k.(clock := c)) }

  function Flushed(h: Host): Host { AfterFlush(h, Flush(Unbounded, h.k)) }

  lemma FlushOnward(h: Host)
    ensures Onward(h, Flushed(h)) && Flushed(h).k.clock == h.k.clock
  {
    hide SweepAll, MoveToBuf, FlushCong, ProbeTimer, AckPackets, ProbePackets, SendWindow, Pack;
    if h.k.clock.updated {
      var k, e := h.k, EnvOf(h.k.cfg, h.k.rtt.rto, h.k.clock.current);
      var n := MoveShape(k.snd, SendWindow(k.cfg, ProbeTimer(k.probe, k.clock.current), k.cong), e.current, e.rto);
      assert k.snd.queue[..n] + k.snd.queue[n..] == k.snd.queue;
      Seqs.Assoc(h.sent, k.snd.queue[..n], k.snd.queue[n..]);
    } else {
      NothingFlushed(h);
    }
  }

  lemma ActOnward(h: Host, call: Call)
    requires !call.CallSend? && !call.CallConfigure?
    ensures Onward(h, Act(Unbounded, h, call))
  {
    hide Flush, Recv, Pack, Tick, FlushDue;
    match call
    case CallRecv(len) => RecvOnward(h, len);
    case CallFlush => FlushOnward(h);
    case CallUpdate(now) =>
      var h1 := Timed(h, Tick(h.k.clock, now, h.k.cfg.interval));
      FlushOnward(h1);
      NothingFlushed(h1);
      AfterFlushClock(h, h1, Update(Unbounded, h.k, now));
  }

  lemma QuietOnward(s: System, ev: Event)
    requires QuietEvent(s, ev)
    ensures var s' := Next(Unbounded, s, ev); Onward(s.a, s'.a) && Onward(s.b, s'.b)
  {
    hide Act, Receive;
    match ev
    case Local(atA, call) => ActOnward(Of(s, atA), call);
    case Deliver(toA, i) =>
      if toA && i < |s.b.out| {
        ReceiveOnward(s.a, s.b.out[i]);
      }
      if !toA && i < |s.a.out| {
        ReceiveOnward(s.b, s.a.out[i]);
      }
  }

  /** From `s` the events lead quietly to `t`. */
  ghost predicate Reaches(conv: u32, s: System, evs: seq<Event>, t: System) {
    Live(conv, s) && Live(conv, t) && Quietly(s, evs) && t == RunOn(s, evs) && Onward(s.a, t.a) && Onward(s.b, t.b)
  }

  lemma Stay(conv: u32, s: System)
    requires Live(conv, s)
    ensures Reaches(conv, s, [], s)
  {}

  lemma One(conv: u32, s: System, ev: Event)
    requires Live(conv, s) && QuietEvent(s, ev)
    ensures Reaches(conv, s, [ev], Next(Unbounded, s, ev))
  {
    hide Live, Next, QuietEvent, Onward;
    LiveStep(conv, s, ev);
    QuietOnward(s, ev);
    assert [ev][..0] == [] && RunOn(s, []) == s && Quietly(s, []);
  }

  lemma Then(conv: u32, s: System, evs: seq<Event>, t: System, more: seq<Event>, u: System)
    requires Reaches(conv, s, evs, t) && Reaches(conv, t, more, u)
    ensures Reaches(conv, s, evs + more, u)
  {
    hide Live, Onward;
    RunOnAppend(s, evs, more);
    OnwardTwice(s.a, t.a, u.a);
    OnwardTwice(s.b, t.b, u.b);
  }

  lemma ReachesIs(conv: u32, s: System, evs: seq<Event>, t: System)
    requires Reaches(conv, s, evs, t)
    ensures Live(conv, t) && Onward(s.a, t.a) && Onward(s.b, t.b)
  {}

  // ----- flushing at a given time -----

  /** An update to a time, and if that does not flush a flush. */
  lemma FlushAt(conv: u32, s: System, atA: bool, now: u32) returns (evs: seq<Event>, t: System, c: Clock)
    requires Live(conv, s) && TimeDiff(Of(s, atA).k.clock.current, now) <= 0
    ensures Reaches(conv, s, evs, t) && c.current == now && c.updated
    ensures Of(t, atA) == Flushed(Timed(Of(s, atA), c)) && Of(t, !atA) == Of(s, !atA)
  {
    hide Reaches, Live, Flush, Pack;
    var h, ev := Of(s, atA), Local(atA, CallUpdate(now));
    c := Tick(h.k.clock, now, h.k.cfg.interval);
    TickIs(h.k.clock, now, h.k.cfg.interval);
    One(conv, s, ev);
    t := Next(Unbounded, s, ev);
    evs := [ev];
    AfterFlushClock(h, Timed(h, c), Update(Unbounded, h.k, now));
    if !FlushDue(h.k.clock, now) {
      NothingFlushed(Timed(h, c));
      var t1 := t;
      ReachesIs(conv, s, evs, t1);
      One(conv, t1, Local(atA, CallFlush));
      t := Next(Unbounded, t1, Local(atA, CallFlush));
      Then(conv, s, evs, t1, [Local(atA, CallFlush)], t);
      evs := evs + [Local(atA, CallFlush)];
    }
  }

  lemma TickIs(clock: Clock, now: u32, interval: u32)
    ensures Tick(clock, now, interval).current == now && Tick(clock, now, interval).updated
  {
    hide TimeDiff;
  }

  // ----- what a flush sends -----

  lemma {:induction false} SweepSends(sw0: Sweep, t: Packet, buf: seq<Seg>, e: Env, deadLink: u32, i: nat)
    requires i < |buf| && !FateOf(buf[i], e).Keep?
    ensures PushPacket(t, Touch(buf[i], e), e.current) in SweepAll(sw0, t, buf, e, deadLink).packets
  {
    hide Touch, FateOf, PushPacket;
    if i < |buf| - 1 {
      SweepSends(sw0, t, buf[..|buf| - 1], e, deadLink, i);
    }
  }

  predicate DueAt(seg: Seg, now: u32) { seg.xmit == 0 || TimeDiff(now, seg.resendts) >= 0 }

  /** A segment that is due goes out. */
  lemma FlushSends(k: Kcp, j: nat) returns (p: Packet)
    requires k.clock.updated && j < |k.snd.buf| && DueAt(k.snd.buf[j], k.clock.current)
    ensures p in Flush(Unbounded, k).packets && p.cmd == CMD_PUSH && p.sn == k.snd.buf[j].sn
  {
    hide SweepAll, MoveToBuf, FlushCong, ProbeTimer, AckPackets, ProbePackets, SendWindow, TimeDiff, Backoff;
    var t, e := Template(k), EnvOf(k.cfg, k.rtt.rto, k.clock.current);
    var window := SendWindow(k.cfg, ProbeTimer(k.probe, k.clock.current), k.cong);
    var n := MoveShape(k.snd, window, e.current, e.rto);
    var buf := MoveToBuf(Unbounded, k.snd, window, e.current, e.rto).buf;
    SweepSends(Sweep([], [], k.xmit, false, false, k.dead), t, buf, e, k.cfg.deadLink, j);
    p := PushPacket(t, Touch(buf[j], e), e.current);
  }

  /** What every segment of a flush of this state says. */
  ghost predicate SaysOf(p: Packet, k: Kcp) {
    p.conv == k.cfg.conv && p.una == k.rcv.nxt && p.wnd == WndField(k) && KnownCmd(p.cmd)
  }

  lemma {:induction false} AcksSay(t: Packet, acks: seq<Ack>, k: Kcp)
    requires SaysOf(t, k)
    ensures forall p :: p in AckPackets(t, acks) ==> SaysOf(p, k)
  {
    if acks != [] {
      AcksSay(t, acks[..|acks| - 1], k);
    }
  }

  lemma {:induction false} PushesSay(sw0: Sweep, t: Packet, buf: seq<Seg>, e: Env, deadLink: u32, k: Kcp)
    requires SaysOf(t, k) && sw0.packets == []
    ensures forall p :: p in SweepAll(sw0, t, buf, e, deadLink).packets ==> SaysOf(p, k)
  {
    hide Touch, FateOf;
    if buf != [] {
      PushesSay(sw0, t, buf[..|buf| - 1], e, deadLink, k);
    }
  }

  lemma FlushSays(k: Kcp)
    ensures forall p :: p in Flush(Unbounded, k).packets ==> SaysOf(p, k)
  {
    hide SweepAll, MoveToBuf, FlushCong, ProbeTimer, AckPackets, SendWindow, WndField;
    if k.clock.updated {
      var t, e := Template(k), EnvOf(k.cfg, k.rtt.rto, k.clock.current);
      var buf := MoveToBuf(Unbounded, k.snd, SendWindow(k.cfg, ProbeTimer(k.probe, k.clock.current), k.cong), e.current,
                           e.rto).buf;
      AcksSay(t, k.rcv.acks, k);
      PushesSay(Sweep([], [], k.xmit, false, false, k.dead), t, buf, e, k.cfg.deadLink, k);
    }
  }

  lemma {:induction false} InSomeDatagram(ds: seq<Datagram>, p: Packet) returns (i: nat)
    requires p in Concat(ds)
    ensures i < |ds| && p in ds[i]
  {
    var n := |ds| - 1;
    if p in ds[n] {
      i := n;
    } else {
      i := InSomeDatagram(ds[..n], p);
    }
  }

  /** The new datagram that a segment of the flush travels in; it holds nothing else. */
  lemma SentIn(h: Host, p: Packet) returns (i: nat)
    requires p in Flush(Unbounded, h.k).packets
    ensures |h.out| <= i < |Flushed(h).out| && p in Flushed(h).out[i]
    ensures forall q :: q in Flushed(h).out[i] ==> SaysOf(q, h.k)
  {
    hide Flush, Pack, SaysOf;
    var ps := Flush(Unbounded, h.k).packets;
    PackContents(h.k.cfg.mtu, ps);
    FlushSays(h.k);
    i := InSomeDatagram(Pack(h.k.cfg.mtu, ps), p);
    assert Pack(h.k.cfg.mtu, ps)[i] in Pack(h.k.cfg.mtu, ps);
    i := |h.out| + i;
  }

  // ----- a piece that is expected arrives -----

  lemma PushNext(sent: seq<Frag>, rcv: Receiver, wnd: nat, p: Packet, delivered: seq<seq<byte>>)
    requires RecvSide(sent, rcv, delivered) && p.sn == rcv.nxt && |rcv.queue| < wnd < HALF
    ensures TakePush(Unbounded, rcv, wnd, p).nxt > rcv.nxt
  {
    hide InsertBuf, ParseAll;
    var it := Item(p.sn, Frag(p.frg, p.data));
    InsertKeeps(Unbounded, rcv.buf, it, rcv.nxt, HALF);
    var buf := InsertBuf(Unbounded, rcv.buf, it);
    var x :| x in buf && x.sn == it.sn;
    var i :| 0 <= i < |buf| && buf[i] == x;
    assert buf[0].sn == rcv.nxt;
    var rcv1 := rcv.(acks := rcv.acks + [Ack(p.sn, p.ts)], buf := buf);
    assert TakePush(Unbounded, rcv, wnd, p) == Drain(Unbounded, rcv1, wnd);
    DrainNxt(rcv1.(buf := buf[1..], queue := rcv1.queue + [buf[0]], nxt := rcv.nxt + 1), wnd);
  }

  ghost predicate Expected(k: Kcp, d: Datagram, p: Packet, n: nat) {
    k.rcv.nxt == n && |k.rcv.queue| < k.cfg.rcvWnd && p in d && p.cmd == CMD_PUSH && p.sn == n
  }

  lemma {:induction false} InputAdvances(h: Host, peer: Host, d: Datagram, p: Packet, n: nat, prevUna: nat,
                                         newest: Newest)
    requires HostInv(h) && Link(h, peer) && Link(peer, h)
    requires forall q :: q in d ==> PacketOk(peer.sent, peer.k.rcv, q) && q.conv == h.k.cfg.conv && KnownCmd(q.cmd)
    requires h.k.rcv.nxt > n || Expected(h.k, d, p, n)
    ensures InputSegs(Unbounded, h.k, d, prevUna, newest).k.rcv.nxt > n
    decreases |d|
  {
    hide HostInv, Link, InputSeg, FinishInput, PacketOk, KnownCmd;
    if d == [] {
      FinishOnward(h.k, prevUna, newest);
    } else {
      assert d[0] in d;
      TrueSegStep(h, peer, d[0]);
      SegOnward(h.k, d[0]);
      if h.k.rcv.nxt == n && d[0] == p {
        SegAdvances(h, peer, p);
      }
      InputAdvances(h.(k := InputSeg(Unbounded, h.k, d[0])), peer, d[1..], p, n, prevUna,
                    NewestAfter(Unbounded, newest, d[0]));
    }
  }

  lemma TrueSegStep(h: Host, peer: Host, p: Packet)
    requires HostInv(h) && Link(h, peer) && Link(peer, h) && PacketOk(peer.sent, peer.k.rcv, p)
    ensures var h' := h.(k := InputSeg(Unbounded, h.k, p)); HostInv(h') && Link(h', peer) && Link(peer, h')
  {
    hide HostInv, Link, InputSeg;
    InputSegStep(h, peer, p);
  }

  lemma SegAdvances(h: Host, peer: Host, p: Packet)
    requires HostInv(h) && Link(peer, h) && p.cmd == CMD_PUSH && p.sn == h.k.rcv.nxt && |h.k.rcv.queue| < h.k.cfg.rcvWnd
    ensures InputSeg(Unbounded, h.k, p).rcv.nxt > h.k.rcv.nxt
  {
    hide RecvSide, NoLoss, TakePush, ParseUna, ShrinkBuf, SendSide, AcksOk, OutOk;
    PushNext(peer.sent, h.k.rcv, h.k.cfg.rcvWnd, p, h.delivered);
  }

  // ----- the sender brings the receiver on -----

  /** When a segment may go out, not before the present time. */
  function Deadline(seg: Seg, now: u32): u32 { if DueAt(seg, now) then now else seg.resendts }

  lemma DeadlineIsDue(seg: Seg, now: u32)
    ensures DueAt(seg, Deadline(seg, now)) && TimeDiff(now, Deadline(seg, now)) <= 0
  {}

  /** The next expected piece is not with the receiver, so it is in flight. */
  lemma ExpectedInFlight(x: Host, y: Host) returns (j: nat)
    requires HostInv(x) && Link(x, y) && Drained(y.k.rcv, WND_RCV)
    requires |y.k.rcv.queue| < WND_RCV && y.k.rcv.nxt < |x.sent|
    ensures j < |x.k.snd.buf| && x.k.snd.buf[j].sn == y.k.rcv.nxt
  {
    hide LogOk, Payload, ParseAll, Flatten, OutOk, AcksOk, SegsFrom;
    var n := y.k.rcv.nxt;
    assert !Accepted(y.k.rcv, n);
    assert InBuf(x.k.snd.buf, n);
    j :| 0 <= j < |x.k.snd.buf| && x.k.snd.buf[j].sn == n;
  }

  /** Without a word from the peer, a sender goes on within its window. */
  ghost predicate Within(h: Host, h': Host) {
    && h'.k.snd.una == h.k.snd.una && h'.k.probe.rmtWnd == h.k.probe.rmtWnd
    && |h'.sent| <= Max(|h.sent|, h.k.snd.una + Min(h.k.cfg.sndWnd, h.k.probe.rmtWnd))
  }

  lemma {:induction false} MoveLimit(snd: Sender, wnd: nat, now: u32, rto: u32)
    ensures var snd' := MoveToBuf(Unbounded, snd, wnd, now, rto);
            snd'.nxt <= Max(snd.nxt, snd.una + wnd) && (snd'.queue == [] || snd'.nxt >= snd.una + wnd)
    decreases |snd.queue|
  {
    if Diff(Unbounded, snd.nxt, Add(Unbounded, snd.una, wnd)) < 0 && snd.queue != [] {
      MoveLimit(MoveOne(Unbounded, snd, now, rto), wnd, now, rto);
    }
  }

  lemma FlushWithin(h: Host)
    requires h.k.snd.nxt == |h.sent|
    ensures Within(h, Flushed(h))
  {
    hide SweepAll, FlushCong, AckPackets, ProbePackets, Pack;
    if h.k.clock.updated {
      var k, e := h.k, EnvOf(h.k.cfg, h.k.rtt.rto, h.k.clock.current);
      var window := SendWindow(k.cfg, ProbeTimer(k.probe, k.clock.current), k.cong);
      MoveLimit(k.snd, window, e.current, e.rto);
      var n := MoveShape(k.snd, window, e.current, e.rto);
    } else {
      NothingFlushed(h);
    }
  }

  lemma SameWithin(h: Host, c: Clock, h': Host)
    ensures Within(Timed(h, c), h') == Within(h, h')
  {}

  /** The sender sends it when it is due, and it arrives. */
  lemma Push(conv: u32, s: System) returns (evs: seq<Event>, t: System)
    requires Live(conv, s) && |s.b.k.rcv.queue| < WND_RCV && s.b.k.rcv.nxt < |s.a.sent|
    ensures Reaches(conv, s, evs, t) && t.b.k.rcv.nxt > s.b.k.rcv.nxt && t.b.out == s.b.out && Within(s.a, t.a)
  {
    hide Reaches, HostInv, Link, DueAt, Deadline, Flush, AfterFlush, InputSegs, SaysOf, Within;
    var j := ExpectedInFlight(s.a, s.b);
    var seg := s.a.k.snd.buf[j];
    var now := Deadline(seg, s.a.k.clock.current);
    DeadlineIsDue(seg, s.a.k.clock.current);
    var c;
    evs, t, c := FlushAt(conv, s, true, now);
    var h := Timed(s.a, c);
    var p := FlushSends(h.k, j);
    var i := SentIn(h, p);
    ConvIs(conv, s);
    FlushWithin(h);
    SameWithin(s.a, c, t.a);
    ReachesIs(conv, s, evs, t);
    DeliverPush(conv, t, h, i, p);
    var more, t1 := [Deliver(false, i)], Next(Unbounded, t, Deliver(false, i));
    One(conv, t, Deliver(false, i));
    Then(conv, s, evs, t, more, t1);
    evs, t := evs + more, t1;
  }

  lemma DeliverPush(conv: u32, t: System, h: Host, i: nat, p: Packet)
    requires Live(conv, t) && i < |t.a.out| && p in t.a.out[i] && (forall q :: q in t.a.out[i] ==> SaysOf(q, h.k))
    requires h.k.cfg.conv == conv && p.cmd == CMD_PUSH && p.sn == t.b.k.rcv.nxt && |t.b.k.rcv.queue| < WND_RCV
    ensures Next(Unbounded, t, Deliver(false, i)).b.k.rcv.nxt > t.b.k.rcv.nxt
  {
    hide InputSegs, Link, SendSide, AcksOk, PacketOk, KnownCmd;
    assert t.a.out[i] in t.a.out;
    InputAdvances(t.b, t.a, t.a.out[i], p, t.b.k.rcv.nxt, t.b.k.snd.una, NoAck);
  }

  // ----- the receiver's application takes what is complete -----

  /** A queue without a complete message is short. */
  lemma Incomplete(x: Host, y: Host)
    requires HostInv(x) && Link(x, y) && PeekSize(y.k.rcv.queue) < 0
    ensures |y.k.rcv.queue| <= WND_RCV - 2
  {
    hide SenderInv, ItemsFrom, ParseAll, Payload, Flatten, OutOk, AcksOk, NoLoss, ItemBytes, Framed;
    if y.k.rcv.queue != [] {
      assert y.k.rcv.queue[0].frag == (x.sent + x.k.snd.queue)[y.k.rcv.nxt - |y.k.rcv.queue|];
    }
  }

  lemma TakeOne(h: Host)
    requires PeekSize(h.k.rcv.queue) >= 0
    ensures var h' := Act(Unbounded, h, CallRecv(PeekSize(h.k.rcv.queue)));
            && |h'.k.rcv.queue| + |h'.k.rcv.buf| < |h.k.rcv.queue| + |h.k.rcv.buf|
            && h'.k.rcv.acks == h.k.rcv.acks && (h.k.probe.tell ==> h'.k.probe.tell) && h'.out == h.out
  {
    hide Drain, ItemBytes;
    var k, n := h.k, MergeCount(h.k.rcv.queue);
    var m := DrainShape(Unbounded, k.rcv.(queue := k.rcv.queue[n..]), k.cfg.rcvWnd);
  }

  lemma {:induction false} Consume(conv: u32, s: System) returns (evs: seq<Event>, t: System)
    requires Live(conv, s)
    ensures Reaches(conv, s, evs, t) && t.a == s.a && PeekSize(t.b.k.rcv.queue) < 0
    ensures t.b.k.rcv.acks == s.b.k.rcv.acks && (s.b.k.probe.tell ==> t.b.k.probe.tell) && t.b.out == s.b.out
    decreases |s.b.k.rcv.queue| + |s.b.k.rcv.buf|
  {
    hide Reaches, Live, PeekSize, Act, QuietEvent;
    if PeekSize(s.b.k.rcv.queue) < 0 {
      Stay(conv, s);
      evs, t := [], s;
    } else {
      var ev := Local(false, CallRecv(PeekSize(s.b.k.rcv.queue)));
      TakeOne(s.b);
      RecvQuiet(s, PeekSize(s.b.k.rcv.queue));
      One(conv, s, ev);
      var t1 := Next(Unbounded, s, ev);
      ReachesIs(conv, s, [ev], t1);
      var more;
      more, t := Consume(conv, t1);
      Then(conv, s, [ev], t1, more, t);
      evs := [ev] + more;
    }
  }

  lemma RecvQuiet(s: System, len: int)
    ensures QuietEvent(s, Local(false, CallRecv(len)))
  {}

  // ----- the receiver is made to speak -----

  /** Something waits to be said. */
  predicate Speaking(k: Kcp) { k.rcv.acks != [] || k.probe.tell }

  lemma SegSpeaks(k: Kcp, p: Packet)
    ensures var k' := InputSeg(Unbounded, k, p);
            && (Speaking(k) ==> Speaking(k')) && (p.cmd == CMD_WASK ==> Speaking(k'))
            && (p.cmd == CMD_PUSH && p.sn < k.rcv.nxt && k.cfg.rcvWnd > 0 ==> Speaking(k'))
  {
    hide ParseUna, ParseAck, ShrinkBuf, UpdateAck, InsertBuf, Drain;
    var rcv1 := k.rcv.(acks := k.rcv.acks + [Ack(p.sn, p.ts)]);
    var n := DrainShape(Unbounded, rcv1.(buf := InsertBuf(Unbounded, rcv1.buf, Item(p.sn, Frag(p.frg, p.data)))),
                        k.cfg.rcvWnd);
  }

  /** A packet that must be answered. */
  predicate Prompts(p: Packet, n: nat) { p.cmd == CMD_WASK || (p.cmd == CMD_PUSH && p.sn < n) }

  lemma {:induction false} InputSpeaks(k: Kcp, d: Datagram, p: Packet, n: nat, prevUna: nat, newest: Newest)
    requires (forall q :: q in d ==> q.conv == k.cfg.conv && KnownCmd(q.cmd)) && k.cfg.rcvWnd > 0
    requires Speaking(k) || (p in d && Prompts(p, n) && n <= k.rcv.nxt)
    ensures Speaking(InputSegs(Unbounded, k, d, prevUna, newest).k)
    decreases |d|
  {
    hide InputSeg, FinishInput, KnownCmd;
    if d == [] {
      FinishOnward(k, prevUna, newest);
    } else {
      assert d[0] in d;
      SegOnward(k, d[0]);
      SegSpeaks(k, d[0]);
      InputSpeaks(InputSeg(Unbounded, k, d[0]), d[1..], p, n, prevUna, NewestAfter(Unbounded, newest, d[0]));
    }
  }

  lemma DeliverPrompt(conv: u32, t: System, h: Host, i: nat, p: Packet)
    requires Live(conv, t) && i < |t.a.out| && p in t.a.out[i] && (forall q :: q in t.a.out[i] ==> SaysOf(q, h.k))
    requires h.k.cfg.conv == conv && Prompts(p, t.b.k.rcv.nxt)
    ensures Speaking(Next(Unbounded, t, Deliver(false, i)).b.k)
  {
    hide InputSegs, Link, SendSide, AcksOk, OutOk, KnownCmd, Prompts, Speaking, Drained;
    InputSpeaks(t.b.k, t.a.out[i], p, t.b.k.rcv.nxt, t.b.k.snd.una, NoAck);
  }

  /** A flush at `now` that sends a packet to be answered, and the packet arrives. */
  lemma SendPrompt(conv: u32, s: System, c: Clock, evs0: seq<Event>, t0: System, p: Packet)
    returns (evs: seq<Event>, t: System)
    requires Reaches(conv, s, evs0, t0) && t0.a == Flushed(Timed(s.a, c)) && t0.b == s.b
    requires p in Flush(Unbounded, Timed(s.a, c).k).packets && Prompts(p, s.b.k.rcv.nxt)
    ensures Reaches(conv, s, evs, t) && Speaking(t.b.k) && t.a == t0.a
  {
    hide Reaches, Live, Flush, AfterFlush, Receive, SaysOf, Prompts, Speaking;
    var h := Timed(s.a, c);
    var i := SentIn(h, p);
    ReachesIs(conv, s, evs0, t0);
    ConvIs(conv, t0);
    DeliverPrompt(conv, t0, h, i, p);
    One(conv, t0, Deliver(false, i));
    t := Next(Unbounded, t0, Deliver(false, i));
    Then(conv, s, evs0, t0, [Deliver(false, i)], t);
    evs := evs0 + [Deliver(false, i)];
  }

  lemma ConvIs(conv: u32, s: System)
    requires Live(conv, s)
    ensures s.a.k.cfg.conv == s.b.k.cfg.conv == conv && s.a.k.cfg.sndWnd >= 1 && s.b.k.cfg.sndWnd >= 1
    ensures s.a.k.snd.nxt == |s.a.sent| && s.b.k.rcv.nxt <= |s.a.sent| && SenderInv(Unbounded, s.a.k.snd)
    ensures ValidConfig(s.a.k.cfg) && ValidConfig(s.b.k.cfg)
  {
    hide LogOk, Payload, ParseAll, Flatten, OutOk, AcksOk, SegsFrom, NoLoss, ItemsFrom;
  }

  /** The probe timer asks once it runs and has run out. */
  lemma AsksThen(k: Kcp) returns (p: Packet)
    requires k.clock.updated && k.probe.rmtWnd == 0 && k.probe.wait != 0 && TimeDiff(k.clock.current, k.probe.ts) >= 0
    ensures p in Flush(Unbounded, k).packets && p.cmd == CMD_WASK
  {
    hide SweepAll, MoveToBuf, FlushCong, AckPackets, SendWindow, TimeDiff;
    var t, acks := Template(k), k.rcv.acks;
    var last := if acks == [] then Ack(0, 0) else acks[|acks| - 1];
    p := t.(ts := last.ts, sn := last.sn, cmd := CMD_WASK);
  }

  lemma TimerSet(k: Kcp)
    requires k.clock.updated && k.probe.rmtWnd == 0 && k.probe.wait == 0
    ensures var pr := Flush(Unbounded, k).k.probe; pr.rmtWnd == 0 && pr.wait != 0
  {
    hide SweepAll, MoveToBuf, FlushCong, AckPackets, SendWindow, TimeDiff;
  }

  /** With the receiver up to date the sender prompts it: by a segment that is still in flight, or by a window
      probe. */
  lemma Prompt(conv: u32, s: System) returns (evs: seq<Event>, t: System)
    requires Live(conv, s) && s.b.k.rcv.nxt == |s.a.sent| && (s.a.k.snd.buf != [] || s.a.k.probe.rmtWnd == 0)
    ensures Reaches(conv, s, evs, t) && Speaking(t.b.k)
  {
    hide Reaches, Live, DueAt, Deadline, Flush, AfterFlush, Prompts, Speaking, SenderInv;
    ConvIs(conv, s);
    var c, p;
    if s.a.k.snd.buf != [] {
      var seg := s.a.k.snd.buf[0];
      DeadlineIsDue(seg, s.a.k.clock.current);
      evs, t, c := FlushAt(conv, s, true, Deadline(seg, s.a.k.clock.current));
      p := FlushSends(Timed(s.a, c).k, 0);
      BelowNxt(s.a.k.snd, 0);
      PromptIs(p, s.b.k.rcv.nxt);
      evs, t := SendPrompt(conv, s, c, evs, t, p);
    } else if s.a.k.probe.wait != 0 {
      evs, t := Probe(conv, s);
    } else {
      NowIs(s.a.k.clock.current);
      evs, t, c := FlushAt(conv, s, true, s.a.k.clock.current);
      TimerSet(Timed(s.a, c).k);
      FlushedProbe(Timed(s.a, c));
      ReachesIs(conv, s, evs, t);
      var more, t1 := Probe(conv, t);
      Then(conv, s, evs, t, more, t1);
      evs, t := evs + more, t1;
    }
  }

  lemma FlushedProbe(h: Host)
    ensures Flushed(h).k == Flush(Unbounded, h.k).k
  {
    hide Flush;
  }

  lemma PromptIs(p: Packet, n: nat)
    requires p.cmd == CMD_WASK || (p.cmd == CMD_PUSH && p.sn < n)
    ensures Prompts(p, n)
  {}

  lemma NowIs(now: u32)
    ensures TimeDiff(now, now) == 0
  {}

  lemma BelowNxt(snd: Sender, i: nat)
    requires SenderInv(Unbounded, snd) && i < |snd.buf|
    ensures snd.buf[i].sn < snd.nxt
  {}

  lemma Probe(conv: u32, s: System) returns (evs: seq<Event>, t: System)
    requires Live(conv, s) && s.a.k.probe.rmtWnd == 0 && s.a.k.probe.wait != 0
    ensures Reaches(conv, s, evs, t) && Speaking(t.b.k)
  {
    hide Reaches, Live, Flush, AfterFlush, Prompts, Speaking, TimeDiff;
    var now, ts := s.a.k.clock.current, s.a.k.probe.ts;
    NowIs(now);
    NowIs(ts);
    var c;
    evs, t, c := FlushAt(conv, s, true, if TimeDiff(now, ts) >= 0 then now else ts);
    var p := AsksThen(Timed(s.a, c).k);
    PromptIs(p, s.b.k.rcv.nxt);
    evs, t := SendPrompt(conv, s, c, evs, t, p);
  }

  // ----- the receiver answers, and the sender may go on -----

  /** A receive window whose 16-bit field never reads zero while the queue holds no complete message. */
  predicate Tellable(wnd: nat) { wnd % 0x1_0000 >= WND_RCV - 1 }

  lemma FieldOpen(k: Kcp)
    requires WND_RCV <= k.cfg.rcvWnd && Tellable(k.cfg.rcvWnd) && |k.rcv.queue| <= WND_RCV - 2
    ensures WndField(k) > 0
  {}

  lemma FlushSpeaks(k: Kcp) returns (p: Packet)
    requires k.clock.updated && Speaking(k)
    ensures p in Flush(Unbounded, k).packets
  {
    hide SweepAll, MoveToBuf, FlushCong, ProbeTimer, SendWindow;
    var t, acks := Template(k), k.rcv.acks;
    if acks != [] {
      p := t.(ts := acks[|acks| - 1].ts, sn := acks[|acks| - 1].sn);
    } else {
      p := t.(ts := 0, sn := 0, cmd := CMD_WINS);
      TellKept(k.probe, k.clock.current);
    }
  }

  lemma TellKept(pr: Probe, now: u32)
    ensures ProbeTimer(pr, now).tell == pr.tell
  {}

  /** Everything in flight is acknowledged, and the peer has room. */
  ghost predicate Open(k: Kcp) { k.snd.buf == [] && k.snd.una == k.snd.nxt && k.probe.rmtWnd > 0 }

  lemma {:induction false} AllBelow(buf: seq<Seg>, una: nat)
    requires forall i :: 0 <= i < |buf| ==> buf[i].sn < una
    ensures ParseUna(Unbounded, buf, una) == []
  {
    if buf != [] {
      AllBelow(buf[1..], una);
    }
  }

  lemma SegOpens(k: Kcp, p: Packet)
    requires p.una == k.snd.nxt && p.wnd > 0 && forall i :: 0 <= i < |k.snd.buf| ==> k.snd.buf[i].sn < k.snd.nxt
    ensures var k' := InputSeg(Unbounded, k, p); Open(k') && k'.snd.nxt == k.snd.nxt && k'.cfg == k.cfg
  {
    hide TakePush, UpdateAck, ParseUna, TimeDiff;
    AllBelow(k.snd.buf, p.una);
  }

  lemma {:induction false} InputOpens(k: Kcp, d: Datagram, n: nat, prevUna: nat, newest: Newest)
    requires forall q :: q in d ==> q.conv == k.cfg.conv && KnownCmd(q.cmd) && q.una == n && q.wnd > 0
    requires k.snd.nxt == n && forall i :: 0 <= i < |k.snd.buf| ==> k.snd.buf[i].sn < n
    requires d != [] || Open(k)
    ensures Open(InputSegs(Unbounded, k, d, prevUna, newest).k)
    decreases |d|
  {
    hide InputSeg, FinishInput, KnownCmd;
    if d == [] {
      FinishOnward(k, prevUna, newest);
    } else {
      assert d[0] in d;
      SegOpens(k, d[0]);
      InputOpens(InputSeg(Unbounded, k, d[0]), d[1..], n, prevUna, NewestAfter(Unbounded, newest, d[0]));
    }
  }

  lemma DeliverAnswer(conv: u32, t: System, h: Host, i: nat)
    requires Live(conv, t) && i < |t.b.out| && t.b.out[i] != [] && (forall q :: q in t.b.out[i] ==> SaysOf(q, h.k))
    requires h.k.cfg.conv == conv && h.k.rcv.nxt == |t.a.sent| && WndField(h.k) > 0
    ensures Open(Next(Unbounded, t, Deliver(true, i)).a.k)
  {
    hide InputSegs, Link, AcksOk, OutOk, KnownCmd, Drained, WndField, LogOk, Open, NoLoss;
    InputOpens(t.a.k, t.b.out[i], |t.a.sent|, t.a.k.snd.una, NoAck);
  }

  /** What the receiver says opens the sender's window. */
  lemma Answer(conv: u32, s: System) returns (evs: seq<Event>, t: System)
    requires Live(conv, s) && s.b.k.rcv.nxt == |s.a.sent| && Speaking(s.b.k)
    requires PeekSize(s.b.k.rcv.queue) < 0 && Tellable(s.b.k.cfg.rcvWnd)
    ensures Reaches(conv, s, evs, t) && Open(t.a.k)
  {
    hide Reaches, Live, Flush, AfterFlush, Receive, SaysOf, Speaking, PeekSize, WndField, Open, Tellable;
    ConvIs(conv, s);
    ShortQueue(conv, s);
    NowIs(s.b.k.clock.current);
    var c;
    evs, t, c := FlushAt(conv, s, false, s.b.k.clock.current);
    var h := Timed(s.b, c);
    SpeakingStill(s.b.k, c);
    FieldOpen(h.k);
    var p := FlushSpeaks(h.k);
    var i := SentIn(h, p);
    ReachesIs(conv, s, evs, t);
    DeliverAnswer(conv, t, h, i);
    One(conv, t, Deliver(true, i));
    var t1 := Next(Unbounded, t, Deliver(true, i));
    Then(conv, s, evs, t, [Deliver(true, i)], t1);
    evs, t := evs + [Deliver(true, i)], t1;
  }

  lemma SpeakingStill(k: Kcp, c: Clock)
    ensures Speaking(k.(clock := c)) == Speaking(k)
  {}

  lemma ShortQueue(conv: u32, s: System)
    requires Live(conv, s) && PeekSize(s.b.k.rcv.queue) < 0
    ensures |s.b.k.rcv.queue| <= WND_RCV - 2
  {
    hide HostInv, Link, PeekSize;
    Incomplete(s.a, s.b);
  }

  lemma FlushMoves(h: Host)
    requires h.k.clock.updated && Open(h.k) && h.k.cong.cwnd >= 1 && h.k.cfg.sndWnd >= 1 && h.k.snd.queue != []
    ensures |Flushed(h).sent| > |h.sent|
  {
    hide SweepAll, FlushCong, AckPackets, ProbePackets, Pack;
    var k, e := h.k, EnvOf(h.k.cfg, h.k.rtt.rto, h.k.clock.current);
    var window := SendWindow(k.cfg, ProbeTimer(k.probe, k.clock.current), k.cong);
    var one := MoveOne(Unbounded, k.snd, e.current, e.rto);
    assert MoveToBuf(Unbounded, k.snd, window, e.current, e.rto) == MoveToBuf(Unbounded, one, window, e.current, e.rto);
    var n := MoveShape(one, window, e.current, e.rto);
  }

  /** A flush opens the congestion window at least by one, and keeps an open sender open if it sends
      nothing new. */
  lemma FlushIdle(h: Host)
    requires h.k.clock.updated && Open(h.k)
    ensures var h' := Flushed(h); h'.k.cong.cwnd >= 1 && h'.k.cfg == h.k.cfg && (|h'.sent| == |h.sent| ==> Open(h'.k))
  {
    hide SweepAll, MoveToBuf, AckPackets, ProbePackets, Pack, SendWindow;
    var k, e := h.k, EnvOf(h.k.cfg, h.k.rtt.rto, h.k.clock.current);
    var window := SendWindow(k.cfg, ProbeTimer(k.probe, k.clock.current), k.cong);
    var n := MoveShape(k.snd, window, e.current, e.rto);
    SweepSame(Sweep([], [], k.xmit, false, false, k.dead), Template(k),
              MoveToBuf(Unbounded, k.snd, window, e.current, e.rto).buf,
              e, k.cfg.deadLink);
  }

  /** An open sender with something queued puts the next piece into flight. */
  lemma Move(conv: u32, s: System) returns (evs: seq<Event>, t: System)
    requires Live(conv, s) && Open(s.a.k) && |Log(s.a)| > |s.a.sent|
    ensures Reaches(conv, s, evs, t) && |t.a.sent| > |s.a.sent|
  {
    hide Reaches, Live, Flush, AfterFlush, Open;
    ConvIs(conv, s);
    NowIs(s.a.k.clock.current);
    var c, c2;
    evs, t, c := FlushAt(conv, s, true, s.a.k.clock.current);
    OpenTimed(s.a, c);
    FlushIdle(Timed(s.a, c));
    ReachesIs(conv, s, evs, t);
    if |t.a.sent| == |s.a.sent| {
      ConvIs(conv, t);
      NowIs(t.a.k.clock.current);
      var more, t1;
      more, t1, c2 := FlushAt(conv, t, true, t.a.k.clock.current);
      OpenTimed(t.a, c2);
      FlushMoves(Timed(t.a, c2));
      Then(conv, s, evs, t, more, t1);
      evs, t := evs + more, t1;
    }
  }

  lemma OpenTimed(h: Host, c: Clock)
    ensures Open(Timed(h, c).k) == Open(h.k)
  {}

  /** With the receiver up to date, another piece can be put into flight. */
  lemma GrowFlight(conv: u32, s: System) returns (evs: seq<Event>, t: System)
    requires Live(conv, s) && s.b.k.rcv.nxt == |s.a.sent| < |Log(s.a)| && Tellable(s.b.k.cfg.rcvWnd)
    ensures Reaches(conv, s, evs, t) && |t.a.sent| > |s.a.sent|
  {
    hide Reaches, Live, Speaking, PeekSize, Tellable;
    evs, t := [], s;
    Stay(conv, s);
    if s.a.k.snd.buf != [] || s.a.k.probe.rmtWnd == 0 {
      evs, t := Prompt(conv, s);
      ReachesIs(conv, s, evs, t);
      if |t.a.sent| == |s.a.sent| {
        var e1, t1 := Consume(conv, t);
        Then(conv, s, evs, t, e1, t1);
        SameSpeaking(t.b.k, t1.b.k);
        ReachesIs(conv, t, e1, t1);
        ConvIs(conv, t1);
        var e2, t2 := Answer(conv, t1);
        Then(conv, s, evs + e1, t1, e2, t2);
        evs, t := evs + e1 + e2, t2;
      }
    } else {
      OpenNow(conv, s);
    }
    ReachesIs(conv, s, evs, t);
    if |t.a.sent| == |s.a.sent| {
      var more, t3 := Move(conv, t);
      Then(conv, s, evs, t, more, t3);
      evs, t := evs + more, t3;
    }
  }

  lemma SameSpeaking(k: Kcp, k': Kcp)
    requires Speaking(k) && k'.rcv.acks == k.rcv.acks && (k.probe.tell ==> k'.probe.tell)
    ensures Speaking(k')
  {}

  lemma OpenNow(conv: u32, s: System)
    requires Live(conv, s) && s.a.k.snd.buf == [] && s.a.k.probe.rmtWnd > 0
    ensures Open(s.a.k)
  {
    hide LogOk, Payload, ParseAll, Flatten, OutOk, AcksOk, Link;
  }

  /** And put with the receiver. */
  lemma AdvanceReceiver(conv: u32, s: System) returns (evs: seq<Event>, t: System)
    requires Live(conv, s) && PeekSize(s.b.k.rcv.queue) < 0 && s.b.k.rcv.nxt < |Log(s.a)| && Tellable(s.b.k.cfg.rcvWnd)
    ensures Reaches(conv, s, evs, t) && t.b.k.rcv.nxt > s.b.k.rcv.nxt
  {
    hide Reaches, Live, PeekSize, Tellable;
    ConvIs(conv, s);
    if s.b.k.rcv.nxt < |s.a.sent| {
      ShortQueue(conv, s);
      evs, t := Push(conv, s);
    } else {
      evs, t := GrowFlight(conv, s);
      ReachesIs(conv, s, evs, t);
      var e1, t1 := Consume(conv, t);
      Then(conv, s, evs, t, e1, t1);
      ReachesIs(conv, t, e1, t1);
      evs, t := evs + e1, t1;
      if t1.b.k.rcv.nxt == s.b.k.rcv.nxt {
        ShortQueue(conv, t1);
        var e2, t2 := Push(conv, t1);
        Then(conv, s, evs, t1, e2, t2);
        evs, t := evs + e2, t2;
      }
    }
  }

  // ----- everything arrives -----

  /** What `x` accepted is what `y` was handed. */
  ghost predicate HandedOut(x: Host, y: Host) {
    Flatten(y.delivered) == Flatten(x.accepted) && (x.plain ==> y.delivered == x.accepted)
  }

  /** A log at its end is at the end of a message, so nothing incomplete can be left. */
  lemma EndsComplete(log: seq<Frag>, queue: seq<Item>)
    requires Framed(log) && queue != [] && |queue| <= |log|
    requires forall i :: 0 <= i < |queue| ==> queue[i].frag == log[|log| - |queue| + i]
    ensures PeekSize(queue) >= 0
  {
    hide MergeCount, ItemBytes;
    FrontMessage(log, queue, |log| - |queue|);
    assert queue[|queue| - 1].frag == log[|log| - 1];
  }

  lemma AllTaken(x: Host, y: Host)
    requires HostInv(x) && Link(x, y) && PeekSize(y.k.rcv.queue) < 0 && y.k.rcv.nxt == |Log(x)|
    ensures HandedOut(x, y)
  {
    hide SenderInv, ItemsFrom, ParseAll, Payload, Flatten, OutOk, AcksOk, NoLoss, ItemBytes, MergeCount;
    var log, queue := Log(x), y.k.rcv.queue;
    assert x.k.snd.queue == [] && log == x.sent;
    if queue != [] {
      EndsComplete(log, queue);
    }
    assert x.sent[..|x.sent|] == x.sent;
    ParsedBytes(Parse([], []), x.sent);
    NothingParsed();
    assert [] + Payload(x.sent) == Payload(x.sent) && Flatten(y.delivered) + [] == Flatten(y.delivered);
  }

  /** From every such state some quiet run hands out everything that one side has accepted. */
  lemma {:induction false} Complete(conv: u32, s: System) returns (evs: seq<Event>, t: System)
    requires Live(conv, s) && Tellable(s.b.k.cfg.rcvWnd)
    ensures Reaches(conv, s, evs, t) && HandedOut(t.a, t.b)
    decreases |Log(s.a)| - s.b.k.rcv.nxt
  {
    hide Reaches, Live, PeekSize, Tellable, HandedOut;
    evs, t := Consume(conv, s);
    ReachesIs(conv, s, evs, t);
    ConvIs(conv, t);
    if t.b.k.rcv.nxt < |Log(t.a)| {
      var e1, t1 := AdvanceReceiver(conv, t);
      ReachesIs(conv, t, e1, t1);
      ConvIs(conv, t1);
      var e2, t2 := Complete(conv, t1);
      Then(conv, s, evs, t, e1, t1);
      Then(conv, s, evs + e1, t1, e2, t2);
      evs, t := evs + e1 + e2, t2;
    } else {
      LiveParts(conv, t);
      AllTaken(t.a, t.b);
    }
  }

  lemma LiveParts(conv: u32, s: System)
    requires Live(conv, s)
    ensures HostInv(s.a) && Link(s.a, s.b)
  {}

  // ----- both ways -----

  function Swap(s: System): System { System(s.b, s.a) }

  function Flip(ev: Event): Event {
    match ev
    case Local(atA, call) => Local(!atA, call)
    case Deliver(toA, i) => Deliver(!toA, i)
  }

  function FlipAll(evs: seq<Event>): (r: seq<Event>)
    ensures |r| == |evs|
  {
    if evs == [] then [] else FlipAll(evs[..|evs| - 1]) + [Flip(evs[|evs| - 1])]
  }

  lemma FlipStep(s: System, ev: Event)
    ensures Next(Unbounded, Swap(s), Flip(ev)) == Swap(Next(Unbounded, s, ev))
    ensures QuietEvent(Swap(s), Flip(ev)) == QuietEvent(s, ev)
  {
    hide Act, Receive, TimeDiff;
  }

  lemma {:induction false} FlipRun(s: System, evs: seq<Event>)
    ensures RunOn(Swap(s), FlipAll(evs)) == Swap(RunOn(s, evs)) && Quietly(Swap(s), FlipAll(evs)) == Quietly(s, evs)
  {
    hide Next, QuietEvent;
    if evs != [] {
      FlipRun(s, evs[..|evs| - 1]);
      FlipStep(RunOn(s, evs[..|evs| - 1]), evs[|evs| - 1]);
      assert FlipAll(evs)[..|evs| - 1] == FlipAll(evs[..|evs| - 1]);
    }
  }

  lemma LiveSwap(conv: u32, s: System)
    requires Live(conv, s)
    ensures Live(conv, Swap(s))
  {
    hide HostInv, Link, Steady;
  }

  /** The same for what the other side has accepted. */
  lemma CompleteBack(conv: u32, s: System) returns (evs: seq<Event>, t: System)
    requires Live(conv, s) && Tellable(s.a.k.cfg.rcvWnd)
    ensures Reaches(conv, s, evs, t) && HandedOut(t.b, t.a)
  {
    hide Live, Tellable, HandedOut, Onward, RunOn, Quietly;
    LiveSwap(conv, s);
    var evs1, t1 := Complete(conv, Swap(s));
    evs, t := FlipAll(evs1), Swap(t1);
    FlipRun(Swap(s), evs1);
    LiveSwap(conv, t1);
  }

  lemma {:induction false} FlattenPrefix(a: seq<seq<byte>>, b: seq<seq<byte>>)
    requires a <= b
    ensures Flatten(a) <= Flatten(b)
  {
    if |a| < |b| {
      FlattenPrefix(a, b[..|b| - 1]);
    } else {
      assert a == b;
    }
  }

  /** What has been handed out stays so. */
  lemma StillHandedOut(conv: u32, s: System, evs: seq<Event>, t: System)
    requires Reaches(conv, s, evs, t) && HandedOut(s.a, s.b)
    ensures HandedOut(t.a, t.b)
  {
    hide HostInv, Link, Flatten, RunOn, Quietly, Steady;
    FlattenPrefix(s.b.delivered, t.b.delivered);
    LinkPromises(t.a, t.b);
  }

  /** No reachable state is stuck: if both receive windows can be told, some quiet run hands out everything
      that was accepted, in both directions. */
  lemma NeverStuck(conv: u32, evs: seq<Event>) returns (more: seq<Event>)
    requires var s := RunAll(Unbounded, conv, evs); Tellable(s.a.k.cfg.rcvWnd) && Tellable(s.b.k.cfg.rcvWnd)
    ensures var s, t := RunAll(Unbounded, conv, evs), RunAll(Unbounded, conv, evs + more);
            && Quietly(s, more) && t == RunOn(s, more) && t.a.accepted == s.a.accepted && t.b.accepted == s.b.accepted
            && HandedOut(t.a, t.b) && HandedOut(t.b, t.a)
  {
    hide RunAll, Live, Tellable, HandedOut, RunOn, Quietly;
    var s := RunAll(Unbounded, conv, evs);
    EveryStateLive(conv, evs);
    var e1, t1 := Complete(conv, s);
    ReachesIs(conv, s, e1, t1);
    var e2, t2 := CompleteBack(conv, t1);
    StillHandedOut(conv, t1, e2, t2);
    Then(conv, s, e1, t1, e2, t2);
    more := e1 + e2;
    RunAllAppend(conv, evs, more);
  }

  /** Some quiet run hands out everything that `a` has accepted. */
  ghost predicate CanFinish(s: System) {
    exists more :: Quietly(s, more) && HandedOut(RunOn(s, more).a, RunOn(s, more).b)
  }

  lemma OneWay(conv: u32, evs: seq<Event>)
    requires Tellable(RunAll(Unbounded, conv, evs).b.k.cfg.rcvWnd)
    ensures CanFinish(RunAll(Unbounded, conv, evs))
  {
    hide RunAll, Live, Tellable, HandedOut, RunOn, Quietly;
    EveryStateLive(conv, evs);
    var more, t := Complete(conv, RunAll(Unbounded, conv, evs));
  }
}
