/** Two endpoints of one conversation joined by a network that loses, repeats and reorders
    datagrams.  The network is the history of everything sent: a delivery picks any datagram the
    peer ever sent, as often as it likes, and a datagram never picked is lost. */
module KcpSystem {
  import opened SeqNum
  import opened Wire
  import opened KcpSpec
  import opened KcpQueues
  import opened KcpFraming
  import Seqs

  /** An endpoint with its history: the datagrams it sent, the pieces it put into flight (numbered
      by their position), the buffers its application sent and the ones it received. */
  datatype Host = Host(k: Kcp, out: seq<Datagram>, sent: seq<Frag>, accepted: seq<seq<byte>>,
                       delivered: seq<seq<byte>>, plain: bool)

  datatype Call =
    | CallSend(data: seq<byte>)
    | CallRecv(len: int)
    | CallFlush
    | CallUpdate(now: u32)
    | CallConfigure(setting: Setting)

  datatype Event =
    | Local(atA: bool, call: Call)
    | Deliver(toA: bool, i: nat)

  datatype System = System(a: Host, b: Host)

  function Started(conv: u32): Host {
    Host(Create(conv), [], [], [], [], true)
  }

  function Moved(queue: seq<Frag>, queue': seq<Frag>): seq<Frag> {
    queue[..if |queue'| <= |queue| then |queue| - |queue'| else 0]
  }

  function AfterFlush(h: Host, r: FlushResult): Host {
    h.(k := r.k, out := h.out + Pack(h.k.cfg.mtu, r.packets), sent := h.sent + Moved(h.k.snd.queue, r.k.snd.queue))
  }

  function Act(ar: Arith, h: Host, call: Call): Host {
    match call
    case CallSend(data) =>
      var r := Send(h.k.cfg, h.k.snd.queue, data);
      h.(k := h.k.(snd := h.k.snd.(queue := r.queue)),
         accepted := if 0 <= r.ret <= |data| then h.accepted + [data[..r.ret]] else h.accepted)
    case CallRecv(len) =>
      var r := Recv(ar, h.k, len);
      h.(k := r.k, delivered := if r.ret >= 0 && len >= 0 then h.delivered + [r.data] else h.delivered)
    case CallFlush => AfterFlush(h, Flush(ar, h.k))
    case CallUpdate(now) => AfterFlush(h, Update(ar, h.k, now))
    case CallConfigure(s) =>
      h.(k := h.k.(cfg := Configure(h.k.cfg, s)), plain := h.plain && (s.SetStream? ==> s.stream == 0))
  }

  /** Numbers that do not wrap do not fit the wire, so the unbounded reading hands segments over
      directly; `InputRoundTrip` shows that the bytes make no difference. */
  function Receive(ar: Arith, h: Host, d: Datagram): Host {
    h.(k := if ar.Wrap32? then Input(ar, h.k, EncodeAll(d)).k else InputSegs(ar, h.k, d, h.k.snd.una, NoAck).k)
  }

  function Next(ar: Arith, s: System, ev: Event): System {
    match ev
    case Local(atA, call) => if atA then s.(a := Act(ar, s.a, call)) else s.(b := Act(ar, s.b, call))
    case Deliver(toA, i) =>
      if toA then if i < |s.b.out| then s.(a := Receive(ar, s.a, s.b.out[i])) else s
      else if i < |s.a.out| then s.(b := Receive(ar, s.b, s.a.out[i])) else s
  }

  function RunAll(ar: Arith, conv: u32, evs: seq<Event>): System {
    if evs == [] then System(Started(conv), Started(conv))
    else Next(ar, RunAll(ar, conv, evs[..|evs| - 1]), evs[|evs| - 1])
  }

  // ----- invariants (unbounded reading) -----

  /** The receiver has taken responsibility for this number. */
  ghost predicate Accepted(rcv: Receiver, sn: nat) {
    sn < rcv.nxt || exists i :: 0 <= i < |rcv.buf| && rcv.buf[i].sn == sn
  }

  ghost predicate InBuf(buf: seq<Seg>, sn: nat) {
    exists i :: 0 <= i < |buf| && buf[i].sn == sn
  }

  ghost predicate Settled(h: Host) {
    ValidConfig(h.k.cfg) && h.k.probe.rmtWnd <= MAX_WND
  }

  /** What is in flight is what was put into flight; the log of sent and queued pieces is framed
      and spells what the application sent. */
  ghost predicate SendSide(h: Host) {
    && SenderInv(Unbounded, h.k.snd) && h.k.snd.nxt == |h.sent|
    && (forall i :: 0 <= i < |h.k.snd.buf| ==>
          h.k.snd.buf[i].sn < |h.sent| && h.k.snd.buf[i].frag == h.sent[h.k.snd.buf[i].sn])
    && LogOk(h.sent + h.k.snd.queue)
    && Payload(h.sent + h.k.snd.queue) == Flatten(h.accepted)
    && (h.plain ==> h.k.cfg.stream == 0 && ParseAll(Parse([], []), h.sent + h.k.snd.queue) == Parse(h.accepted, []))
  }

  /** The receive queue and the reorder buffer hold pieces of the peer's log at their places; what
      was handed out is the log before the queue, read as messages. */
  ghost predicate RecvSide(sent: seq<Frag>, rcv: Receiver, delivered: seq<seq<byte>>) {
    && |rcv.queue| <= rcv.nxt <= |sent|
    && (forall i :: 0 <= i < |rcv.queue| ==>
          rcv.queue[i].sn == rcv.nxt - |rcv.queue| + i && rcv.queue[i].frag == sent[rcv.nxt - |rcv.queue| + i])
    && ItemsFrom(Unbounded, rcv.buf, rcv.nxt, HALF)
    && (forall i :: 0 <= i < |rcv.buf| ==> rcv.buf[i].sn < |sent| && rcv.buf[i].frag == sent[rcv.buf[i].sn])
    && ParseAll(Parse([], []), sent[..rcv.nxt - |rcv.queue|]) == Parse(delivered, [])
  }

  /** Each number put into flight is still in flight or with the receiver. */
  ghost predicate NoLoss(snd: Sender, rcv: Receiver) {
    forall sn :: 0 <= sn < snd.nxt ==> InBuf(snd.buf, sn) || Accepted(rcv, sn)
  }

  /** What a host may truthfully put on the wire. */
  ghost predicate PacketOk(sent: seq<Frag>, rcv: Receiver, p: Packet) {
    && (p.cmd == CMD_PUSH ==> p.sn < |sent| && Frag(p.frg, p.data) == sent[p.sn])
    && (p.cmd == CMD_ACK ==> Accepted(rcv, p.sn))
    && p.una <= rcv.nxt
  }

  ghost predicate OutOk(out: seq<Datagram>, sent: seq<Frag>, rcv: Receiver) {
    forall d, p :: d in out && p in d ==> PacketOk(sent, rcv, p)
  }

  ghost predicate AcksOk(rcv: Receiver) {
    forall i :: 0 <= i < |rcv.acks| ==> Accepted(rcv, rcv.acks[i].sn)
  }

  ghost predicate HostInv(h: Host) {
    && Settled(h) && SendSide(h) && AcksOk(h.k.rcv)
    && OutOk(h.out, h.sent, h.k.rcv)
  }

  /** Data flows from `x` to `y`, acknowledgements back. */
  ghost predicate Link(x: Host, y: Host) {
    RecvSide(x.sent, y.k.rcv, y.delivered) && NoLoss(x.k.snd, y.k.rcv)
  }

  ghost predicate SystemInv(s: System) {
    HostInv(s.a) && HostInv(s.b) && Link(s.a, s.b) && Link(s.b, s.a)
  }

  // ----- growth -----

  ghost predicate RcvGrows(rcv: Receiver, rcv': Receiver) {
    rcv.nxt <= rcv'.nxt && forall sn :: Accepted(rcv, sn) ==> Accepted(rcv', sn)
  }

  lemma OutGrows(out: seq<Datagram>, sent: seq<Frag>, rcv: Receiver, sent': seq<Frag>, rcv': Receiver)
    requires OutOk(out, sent, rcv) && sent <= sent' && RcvGrows(rcv, rcv')
    ensures OutOk(out, sent', rcv')
  {
    forall d, p | d in out && p in d ensures PacketOk(sent', rcv', p) {
      assert PacketOk(sent, rcv, p);
    }
  }

  lemma NoLossGrows(snd: Sender, rcv: Receiver, rcv': Receiver)
    requires NoLoss(snd, rcv) && RcvGrows(rcv, rcv')
    ensures NoLoss(snd, rcv')
  {}

  lemma RecvSideGrows(sent: seq<Frag>, sent': seq<Frag>, rcv: Receiver, delivered: seq<seq<byte>>)
    requires RecvSide(sent, rcv, delivered) && sent <= sent'
    ensures RecvSide(sent', rcv, delivered)
  {
    assert sent'[..rcv.nxt - |rcv.queue|] == sent[..rcv.nxt - |rcv.queue|];
  }

  // ----- sending -----

  lemma SendStep(h: Host, data: seq<byte>)
    requires HostInv(h)
    ensures HostInv(Act(Unbounded, h, CallSend(data)))
  {
    hide Send, Payload, LogOk, ParseAll, SenderInv, OutOk, AcksOk, Flatten;
    var queue := h.k.snd.queue;
    var r := Send(h.k.cfg, queue, data);
    SendConserves(h.k.cfg, h.sent, queue, data);
    PayloadAppend(h.sent, queue);
    PayloadAppend(h.sent, r.queue);
    if r.ret >= 0 {
      FlattenAppend1(h.accepted, data[..r.ret]);
      Seqs.Assoc(Payload(h.sent), Payload(queue), data[..r.ret]);
    }
    if h.plain {
      SendParses(h.k.cfg, h.sent, queue, data, h.accepted);
      SendAll(h.k.cfg, queue, data);
      assert data[..|data|] == data;
    }
    SenderInvQueue(h.k.snd, r.queue);
  }

  lemma SendAll(cfg: Config, queue: seq<Frag>, data: seq<byte>)
    requires cfg.stream == 0
    ensures var r := Send(cfg, queue, data); r.ret == -2 || r.ret == |data|
  {}

  lemma SenderInvQueue(snd: Sender, queue: seq<Frag>)
    requires SenderInv(Unbounded, snd)
    ensures SenderInv(Unbounded, snd.(queue := queue))
  {}

  // ----- receiving -----

  /** Draining accepts nothing new and forgets nothing. */
  lemma DrainStep(sent: seq<Frag>, rcv: Receiver, wnd: nat, delivered: seq<seq<byte>>)
    requires RecvSide(sent, rcv, delivered)
    ensures RecvSide(sent, Drain(Unbounded, rcv, wnd), delivered)
    ensures RcvGrows(rcv, Drain(Unbounded, rcv, wnd)) && Drain(Unbounded, rcv, wnd).acks == rcv.acks
  {
    hide Drain, ParseAll, ItemsFrom;
    var n := DrainShape(Unbounded, rcv, wnd);
    var rcv' := Drain(Unbounded, rcv, wnd);
    DropKeeps(Unbounded, rcv.buf, rcv.nxt, HALF, n);
    if n > 0 {
      assert rcv.buf[n - 1].sn == rcv.nxt + (n - 1) && rcv.buf[n - 1].sn < |sent|;
    }
    assert rcv'.nxt - |rcv'.queue| == rcv.nxt - |rcv.queue|;
    forall sn: nat | Accepted(rcv, sn) ensures Accepted(rcv', sn) {
      if sn >= rcv.nxt {
        var i :| 0 <= i < |rcv.buf| && rcv.buf[i].sn == sn;
        if i >= n {
          assert rcv'.buf[i - n].sn == sn;
        }
      }
    }
  }

  /** A complete message at the front of the queue is a run of the log: its last piece is numbered
      zero and no other is. */
  lemma FrontRun(log: seq<Frag>, queue: seq<Item>, from: nat) returns (fs: seq<Frag>)
    requires Framed(log) && from + |queue| <= |log|
    requires forall i :: 0 <= i < |queue| ==> queue[i].frag == log[from + i]
    requires queue != [] && PeekSize(queue) >= 0
    ensures |fs| == MergeCount(queue) > 0 && fs == log[from..from + |fs|] && Payload(fs) == ItemBytes(queue[..|fs|])
    ensures fs[|fs| - 1].frg == 0 && forall i :: 0 <= i < |fs| - 1 ==> fs[i].frg > 0
  {
    hide MergeCount, ItemBytes, Payload, Framed;
    FrontMessage(log, queue, from);
    var n := MergeCount(queue);
    fs := Frags(queue[..n]);
    ItemBytesPayload(queue[..n]);
  }

  /** Taking the complete message at the front hands out the next message of the log. */
  lemma TakeStep(sent: seq<Frag>, tail: seq<Frag>, rcv: Receiver, delivered: seq<seq<byte>>)
    requires RecvSide(sent, rcv, delivered) && Framed(sent + tail)
    requires rcv.queue != [] && PeekSize(rcv.queue) >= 0
    ensures var n := MergeCount(rcv.queue);
            RecvSide(sent, rcv.(queue := rcv.queue[n..]), delivered + [ItemBytes(rcv.queue[..n])])
  {
    hide ItemsFrom, ParseAll, Framed, Payload, ItemBytes, MergeCount, PeekSize;
    var from := rcv.nxt - |rcv.queue|;
    var fs := FrontRun(sent + tail, rcv.queue, from);
    MessageParses(Parse(delivered, []), fs);
    ParseAppend(Parse([], []), sent[..from], fs);
    assert sent[..from] + fs == sent[..from + |fs|];
    assert [] + Payload(fs) == Payload(fs);
  }

  lemma RecvStep(x: Host, y: Host, len: int)
    requires HostInv(x) && HostInv(y) && Link(x, y)
    ensures var y' := Act(Unbounded, y, CallRecv(len));
            HostInv(y') && Link(x, y') && RcvGrows(y.k.rcv, y'.k.rcv) && y'.k.snd == y.k.snd && y'.sent == y.sent
  {
    hide Drain, MergeCount, ItemBytes, Framed, Payload, ParseAll, SenderInv, OutOk;
    var k := y.k;
    if k.rcv.queue != [] && PeekSize(k.rcv.queue) >= 0 {
      hide PeekSize, RecvSide;
      TakeStep(x.sent, x.k.snd.queue, k.rcv, y.delivered);
      var rcv1 := if len < 0 then k.rcv else k.rcv.(queue := k.rcv.queue[MergeCount(k.rcv.queue)..]);
      var delivered := if len < 0 then y.delivered
          else y.delivered + [ItemBytes(k.rcv.queue[..MergeCount(k.rcv.queue)])];
      DrainStep(x.sent, rcv1, k.cfg.rcvWnd, delivered);
      var rcv' := Drain(Unbounded, rcv1, k.cfg.rcvWnd);
      assert RcvGrows(k.rcv, rcv');
      NoLossGrows(x.k.snd, k.rcv, rcv');
      OutGrows(y.out, y.sent, k.rcv, y.sent, rcv');
    }
  }

  // ----- the input of one segment -----

  lemma InputUnaStep(x: Sender, rcv: Receiver, una: nat)
    requires SenderInv(Unbounded, x) && NoLoss(x, rcv) && (una <= rcv.nxt || una <= x.una)
    ensures NoLoss(ShrinkBuf(x.(buf := ParseUna(Unbounded, x.buf, una))), rcv)
  {
    hide ParseUna;
    var n := ParseUnaSuffix(Unbounded, x.buf, una);
    forall sn | 0 <= sn < x.nxt ensures InBuf(x.buf[n..], sn) || Accepted(rcv, sn) {
      if InBuf(x.buf, sn) {
        var i :| 0 <= i < |x.buf| && x.buf[i].sn == sn;
        if i >= n {
          assert x.buf[n..][i - n].sn == sn;
        }
      }
    }
  }

  lemma InputAckStep(x: Sender, rcv: Receiver, sn: nat)
    requires NoLoss(x, rcv) && (Accepted(rcv, sn) || !InFlight(Unbounded, x, sn))
    ensures NoLoss(ShrinkBuf(ParseAck(Unbounded, x, sn)), rcv)
  {
    hide RemoveSeg;
    var n := RemoveSegShape(Unbounded, x.buf, sn);
    if InFlight(Unbounded, x, sn) && n < |x.buf| {
      var buf' := x.buf[..n] + x.buf[n + 1..];
      forall m | 0 <= m < x.nxt ensures InBuf(buf', m) || Accepted(rcv, m) {
        if InBuf(x.buf, m) {
          var i :| 0 <= i < |x.buf| && x.buf[i].sn == m;
          if i < n {
            assert buf'[i].sn == m;
          } else if i > n {
            assert buf'[i - 1].sn == m;
          }
        }
      }
    }
  }

  /** Removals and marking keep only pieces that were in flight. */
  ghost predicate FromBuf(buf: seq<Seg>, sent: seq<Frag>) {
    forall i :: 0 <= i < |buf| ==> buf[i].sn < |sent| && buf[i].frag == sent[buf[i].sn]
  }

  lemma AckSideStep(snd: Sender, sent: seq<Frag>, p: Packet)
    requires SenderInv(Unbounded, snd) && FromBuf(snd.buf, sent)
    ensures var s1 := ShrinkBuf(snd.(buf := ParseUna(Unbounded, snd.buf, p.una)));
            && SenderInv(Unbounded, s1) && FromBuf(s1.buf, sent)
            && SenderInv(Unbounded, ShrinkBuf(ParseAck(Unbounded, s1, p.sn)))
            && FromBuf(ShrinkBuf(ParseAck(Unbounded, s1, p.sn)).buf, sent)
  {
    hide SenderInv, ParseUna, RemoveSeg;
    TakeUnaKeeps(Unbounded, snd, p.una);
    var s1 := ShrinkBuf(snd.(buf := ParseUna(Unbounded, snd.buf, p.una)));
    TakeAckKeeps(Unbounded, s1, p.sn);
    var n := ParseUnaSuffix(Unbounded, snd.buf, p.una);
    var m := RemoveSegShape(Unbounded, s1.buf, p.sn);
  }

  /** A push segment from the log, or one outside the window, is acknowledged only if it is then
      accepted. */
  lemma PushStep(sent: seq<Frag>, rcv: Receiver, wnd: nat, p: Packet, delivered: seq<seq<byte>>)
    requires RecvSide(sent, rcv, delivered) && AcksOk(rcv) && wnd < HALF
    requires rcv.nxt <= p.sn < rcv.nxt + wnd ==> p.sn < |sent| && Frag(p.frg, p.data) == sent[p.sn]
    ensures var rcv' := TakePush(Unbounded, rcv, wnd, p);
            RecvSide(sent, rcv', delivered) && AcksOk(rcv') && RcvGrows(rcv, rcv')
  {
    hide Drain, InsertBuf, ParseAll;
    if BelowWindowEnd(Unbounded, rcv, wnd, p.sn) {
      var rcv1 := rcv.(acks := rcv.acks + [Ack(p.sn, p.ts)]);
      assert forall sn :: Accepted(rcv, sn) <==> Accepted(rcv1, sn);
      if p.sn >= rcv.nxt {
        var it := Item(p.sn, Frag(p.frg, p.data));
        InsertStep(sent, rcv1, it, delivered);
        var rcv2 := rcv1.(buf := InsertBuf(Unbounded, rcv1.buf, it));
        DrainStep(sent, rcv2, wnd, delivered);
        assert TakePush(Unbounded, rcv, wnd, p) == Drain(Unbounded, rcv2, wnd);
        hide RecvSide;
        AcksGrow(rcv, rcv2, Drain(Unbounded, rcv2, wnd), Ack(p.sn, p.ts));
      } else {
        AcksGrow(rcv, rcv1, rcv1, Ack(p.sn, p.ts));
      }
    }
  }

  lemma AcksGrow(rcv: Receiver, rcv1: Receiver, rcv2: Receiver, ack: Ack)
    requires AcksOk(rcv) && RcvGrows(rcv, rcv1) && RcvGrows(rcv1, rcv2)
    requires rcv2.acks == rcv.acks + [ack] && Accepted(rcv1, ack.sn)
    ensures AcksOk(rcv2) && RcvGrows(rcv, rcv2)
  {}

  lemma InsertStep(sent: seq<Frag>, rcv: Receiver, it: Item, delivered: seq<seq<byte>>)
    requires RecvSide(sent, rcv, delivered)
    requires rcv.nxt <= it.sn < |sent| && it.sn < rcv.nxt + HALF && it.frag == sent[it.sn]
    ensures var rcv' := rcv.(buf := InsertBuf(Unbounded, rcv.buf, it));
            RecvSide(sent, rcv', delivered) && RcvGrows(rcv, rcv') && Accepted(rcv', it.sn)
  {
    hide InsertBuf, ParseAll, ItemsFrom;
    InsertKeeps(Unbounded, rcv.buf, it, rcv.nxt, HALF);
    var buf' := InsertBuf(Unbounded, rcv.buf, it);
    var x :| x in buf' && x.sn == it.sn;
    forall i | 0 <= i < |buf'| ensures buf'[i].sn < |sent| && buf'[i].frag == sent[buf'[i].sn] {
      assert buf'[i] in buf';
    }
    forall i | 0 <= i < |rcv.buf| ensures rcv.buf[i] in buf' {
      assert rcv.buf[i] in rcv.buf;
    }
  }

  /** What a packet says to this host is true where the host acts on it: a cumulative acknowledgement
      beyond what is known, an acknowledgement of something in flight, a piece inside the window. */
  ghost predicate PacketSafe(h: Host, peer: Host, p: Packet) {
    && (p.una <= peer.k.rcv.nxt || p.una <= h.k.snd.una)
    && (p.cmd == CMD_ACK ==> Accepted(peer.k.rcv, p.sn) || !InFlight(Unbounded, h.k.snd, p.sn))
    && (p.cmd == CMD_PUSH && h.k.rcv.nxt <= p.sn < h.k.rcv.nxt + h.k.cfg.rcvWnd ==>
          p.sn < |peer.sent| && Frag(p.frg, p.data) == peer.sent[p.sn])
  }

  /** One segment that is true where it matters keeps everything. */
  lemma InputSegStep(h: Host, peer: Host, p: Packet)
    requires HostInv(h) && Link(h, peer) && Link(peer, h) && PacketSafe(h, peer, p)
    ensures var h' := h.(k := InputSeg(Unbounded, h.k, p));
            HostInv(h') && Link(h', peer) && Link(peer, h') && h'.k.cfg == h.k.cfg && h.k.rcv.nxt <= h'.k.rcv.nxt
  {
    hide ParseUna, RemoveSeg, TakePush, ShrinkBuf, SenderInv, RecvSide, NoLoss, OutOk, AcksOk, UpdateAck, Payload,
      ParseAll, LogOk;
    var k1 := TakeUna(Unbounded, h.k, p);
    AckSideStep(h.k.snd, h.sent, p);
    InputUnaStep(h.k.snd, peer.k.rcv, p.una);
    ShrinkQueue(h.k.snd.(buf := ParseUna(Unbounded, h.k.snd.buf, p.una)));
    var h1 := h.(k := k1);
    assert HostInv(h1) && Link(h1, peer);
    if p.cmd == CMD_ACK {
      FlightShrinks(h.k.snd, p.una, p.sn);
      InputAckStep(k1.snd, peer.k.rcv, p.sn);
      ShrinkQueue(ParseAck(Unbounded, k1.snd, p.sn));
    } else if p.cmd == CMD_PUSH {
      PushStep(peer.sent, h.k.rcv, h.k.cfg.rcvWnd, p, h.delivered);
      var rcv' := TakePush(Unbounded, h.k.rcv, h.k.cfg.rcvWnd, p);
      NoLossGrows(peer.k.snd, h.k.rcv, rcv');
      OutGrows(h.out, h.sent, h.k.rcv, h.sent, rcv');
    }
  }

  /** A cumulative acknowledgement puts nothing into flight. */
  lemma FlightShrinks(snd: Sender, una: nat, sn: nat)
    requires SenderInv(Unbounded, snd)
    ensures var s1 := ShrinkBuf(snd.(buf := ParseUna(Unbounded, snd.buf, una)));
            snd.una <= s1.una <= s1.nxt == snd.nxt && (InFlight(Unbounded, s1, sn) ==> InFlight(Unbounded, snd, sn))
  {
    hide ParseUna;
    var n := ParseUnaSuffix(Unbounded, snd.buf, una);
  }

  lemma ShrinkQueue(snd: Sender)
    ensures ShrinkBuf(snd).queue == snd.queue && ShrinkBuf(snd).nxt == snd.nxt && ShrinkBuf(snd).buf == snd.buf
  {}

  lemma FinishStep(h: Host, peer: Host, prevUna: nat, newest: Newest)
    requires HostInv(h) && Link(h, peer) && Link(peer, h)
    ensures var h' := h.(k := FinishInput(Unbounded, h.k, prevUna, newest));
            HostInv(h') && Link(h', peer) && Link(peer, h')
  {
    hide CountSkipped, SenderInv, RecvSide, OutOk, AcksOk, Payload, ParseAll, LogOk, Grow;
    if newest.Newest? && InFlight(Unbounded, h.k.snd, newest.sn) {
      var buf' := CountSkipped(Unbounded, h.k.snd.buf, newest.sn, newest.ts);
      CountSkippedSame(Unbounded, h.k.snd.buf, newest.sn, newest.ts);
      SamePiecesKeep(Unbounded, h.k.snd, buf');
      SameNoLoss(h.k.snd, buf', peer.k.rcv);
    }
  }

  lemma SameNoLoss(snd: Sender, buf': seq<Seg>, rcv: Receiver)
    requires NoLoss(snd, rcv) && SamePieces(buf', snd.buf)
    ensures NoLoss(snd.(buf := buf'), rcv)
  {
    forall sn | 0 <= sn < snd.nxt ensures InBuf(buf', sn) || Accepted(rcv, sn) {
      if InBuf(snd.buf, sn) {
        var i :| 0 <= i < |snd.buf| && snd.buf[i].sn == sn;
        assert buf'[i].sn == sn;
      }
    }
  }

  lemma {:induction false} InputStep(h: Host, peer: Host, d: Datagram, prevUna: nat, newest: Newest)
    requires HostInv(h) && Link(h, peer) && Link(peer, h)
    requires forall p :: p in d ==> PacketOk(peer.sent, peer.k.rcv, p)
    ensures var h' := h.(k := InputSegs(Unbounded, h.k, d, prevUna, newest).k);
            HostInv(h') && Link(h', peer) && Link(peer, h')
    decreases |d|
  {
    hide HostInv, Link, InputSeg, FinishInput;
    if d == [] {
      FinishStep(h, peer, prevUna, newest);
    } else if d[0].conv == h.k.cfg.conv && KnownCmd(d[0].cmd) {
      assert d[0] in d;
      InputSegStep(h, peer, d[0]);
      InputStep(h.(k := InputSeg(Unbounded, h.k, d[0])), peer, d[1..], prevUna, NewestAfter(Unbounded, newest, d[0]));
    }
  }

  // ----- flushing -----

  /** Filling the window numbers the next pieces of the queue from `nxt` on. */
  lemma {:induction false} MoveShape(snd: Sender, wnd: nat, now: u32, rto: u32) returns (n: nat)
    ensures n <= |snd.queue|
    ensures var snd' := MoveToBuf(Unbounded, snd, wnd, now, rto);
            && snd'.queue == snd.queue[n..] && snd'.nxt == snd.nxt + n && snd'.una == snd.una
            && |snd'.buf| == |snd.buf| + n
            && (forall i :: 0 <= i < |snd.buf| ==> snd'.buf[i] == snd.buf[i])
            && (forall i :: |snd.buf| <= i < |snd'.buf| ==>
                  snd'.buf[i].sn == snd.nxt + (i - |snd.buf|) && snd'.buf[i].frag == snd.queue[i - |snd.buf|])
    decreases |snd.queue|
  {
    if Diff(Unbounded, snd.nxt, Add(Unbounded, snd.una, wnd)) < 0 && snd.queue != [] {
      var one := MoveOne(Unbounded, snd, now, rto);
      n := MoveShape(one, wnd, now, rto);
      var snd' := MoveToBuf(Unbounded, snd, wnd, now, rto);
      assert snd'.buf[|snd.buf|] == one.buf[|snd.buf|];
      forall i | |one.buf| <= i < |snd'.buf|
        ensures snd'.buf[i].frag == snd.queue[i - |snd.buf|]
      {
        assert snd'.buf[i].frag == one.queue[i - |one.buf|];
      }
      n := n + 1;
    } else {
      n := 0;
    }
  }

  lemma MoveStep(sent: seq<Frag>, snd: Sender, rcv: Receiver, wnd: nat, now: u32, rto: u32)
    requires SenderInv(Unbounded, snd) && snd.nxt == |sent| && wnd <= MAX_WND
    requires FromBuf(snd.buf, sent) && NoLoss(snd, rcv)
    ensures var snd' := MoveToBuf(Unbounded, snd, wnd, now, rto);
            var sent' := sent + Moved(snd.queue, snd'.queue);
            && SenderInv(Unbounded, snd') && snd'.nxt == |sent'| && FromBuf(snd'.buf, sent')
            && NoLoss(snd', rcv) && sent' + snd'.queue == sent + snd.queue
  {
    hide SenderInv;
    MoveKeeps(Unbounded, snd, wnd, now, rto);
    var n := MoveShape(snd, wnd, now, rto);
    var snd' := MoveToBuf(Unbounded, snd, wnd, now, rto);
    forall sn | 0 <= sn < snd'.nxt ensures InBuf(snd'.buf, sn) || Accepted(rcv, sn) {
      if sn >= snd.nxt {
        assert snd'.buf[|snd.buf| + (sn - snd.nxt)].sn == sn;
      } else if InBuf(snd.buf, sn) {
        var i :| 0 <= i < |snd.buf| && snd.buf[i].sn == sn;
        assert snd'.buf[i].sn == sn;
      }
    }
    forall i | 0 <= i < |snd'.buf|
      ensures var sent' := sent + snd.queue[..n]; snd'.buf[i].sn < |sent'| && snd'.buf[i].frag == sent'[snd'.buf[i].sn]
    {
      if i >= |snd.buf| {
        assert snd'.buf[i].frag == snd.queue[i - |snd.buf|];
      }
    }
  }

  lemma {:induction false} AckPacketsOk(t: Packet, acks: seq<Ack>, sent: seq<Frag>, rcv: Receiver)
    requires t.cmd == CMD_ACK && t.una <= rcv.nxt && forall i :: 0 <= i < |acks| ==> Accepted(rcv, acks[i].sn)
    ensures forall p :: p in AckPackets(t, acks) ==> PacketOk(sent, rcv, p)
  {
    if acks != [] {
      AckPacketsOk(t, acks[..|acks| - 1], sent, rcv);
    }
  }

  lemma {:induction false} PushPacketsOk(sw0: Sweep, t: Packet, buf: seq<Seg>, e: Env, deadLink: u32, sent: seq<Frag>,
                                         rcv: Receiver)
    requires sw0.packets == [] && t.una <= rcv.nxt && FromBuf(buf, sent) && Small(sent)
    ensures forall p :: p in SweepAll(sw0, t, buf, e, deadLink).packets ==> PacketOk(sent, rcv, p)
  {
    if buf != [] {
      var seg := buf[|buf| - 1];
      PushPacketsOk(sw0, t, buf[..|buf| - 1], e, deadLink, sent, rcv);
      assert PacketOk(sent, rcv, PushPacket(t, Touch(seg, e), e.current));
    }
  }

  lemma ProbePacketsOk(t: Packet, acks: seq<Ack>, ask: bool, tell: bool, sent: seq<Frag>, rcv: Receiver)
    requires t.una <= rcv.nxt
    ensures forall p :: p in ProbePackets(t, acks, ask, tell) ==> PacketOk(sent, rcv, p)
  {}

  lemma OutAppend(out: seq<Datagram>, mtu: nat, ps: seq<Packet>, sent: seq<Frag>, rcv: Receiver)
    requires OutOk(out, sent, rcv) && forall p :: p in ps ==> PacketOk(sent, rcv, p)
    ensures OutOk(out + Pack(mtu, ps), sent, rcv)
  {
    PackContents(mtu, ps);
  }

  lemma SmallPrefix(a: seq<Frag>, b: seq<Frag>)
    requires Small(a + b)
    ensures Small(a)
  {
    assert forall i :: 0 <= i < |a| ==> a[i] == (a + b)[i];
  }

  /** A flush keeps everything; the receiver's side loses only its pending acknowledgements. */
  lemma FlushStep(h: Host, peer: Host)
    requires HostInv(h) && Link(h, peer) && Link(peer, h)
    ensures var h' := AfterFlush(h, Flush(Unbounded, h.k));
            HostInv(h') && Link(h', peer) && Link(peer, h')
  {
    var k := h.k;
    if !k.clock.updated {
      NothingFlushed(h);
    } else {
      FlushUpdatedStep(h, peer);
    }
  }

  lemma NothingFlushed(h: Host)
    ensures AfterFlush(h, FlushResult(h.k, [])) == h
  {
    assert h.out + Pack(h.k.cfg.mtu, []) == h.out && h.sent + h.k.snd.queue[..0] == h.sent;
  }

  /** What a flush leaves as it was, and where the new parts come from. */
  lemma FlushFields(h: Host, h': Host, t: Packet, pr: Probe, w: DataFlush)
    requires h.k.clock.updated && h' == AfterFlush(h, Flush(Unbounded, h.k))
    requires t == Template(h.k) && pr == ProbeTimer(h.k.probe, h.k.clock.current)
    requires w == FlushSend(Unbounded, h.k.cfg, h.k.snd, h.k.cong, SendWindow(h.k.cfg, pr, h.k.cong),
                            EnvOf(h.k.cfg, h.k.rtt.rto, h.k.clock.current), t, h.k.xmit, h.k.dead)
    ensures h'.k.snd == w.snd && h'.k.rcv == h.k.rcv.(acks := []) && h'.k.cfg == h.k.cfg
    ensures h'.k.probe.rmtWnd == h.k.probe.rmtWnd
    ensures h'.accepted == h.accepted && h'.delivered == h.delivered && h'.plain == h.plain
    ensures h'.sent == h.sent + Moved(h.k.snd.queue, w.snd.queue)
    ensures h'.out == h.out + Pack(h.k.cfg.mtu,
                                   AckPackets(t, h.k.rcv.acks) + ProbePackets(t, h.k.rcv.acks, pr.ask, pr.tell)
                                       + w.packets)
  {}

  lemma FlushUpdatedStep(h: Host, peer: Host)
    requires HostInv(h) && Link(h, peer) && Link(peer, h) && h.k.clock.updated
    ensures var h' := AfterFlush(h, Flush(Unbounded, h.k));
            HostInv(h') && Link(h', peer) && Link(peer, h')
  {
    hide Flush, FlushSend, AfterFlush, ParseAll, Payload, LogOk, SenderInv, OutOk, Moved, EnvOf, ProbeTimer,
      AckPackets, ProbePackets, Pack, RecvSide, NoLoss, WndField;
    var k, h' := h.k, AfterFlush(h, Flush(Unbounded, h.k));
    var t, pr, e := Template(k), ProbeTimer(k.probe, k.clock.current), EnvOf(k.cfg, k.rtt.rto, k.clock.current);
    ProbeKeepsWindow(k.probe, k.clock.current);
    var window := SendWindow(k.cfg, pr, k.cong);
    var w := FlushSend(Unbounded, k.cfg, k.snd, k.cong, window, e, t, k.xmit, k.dead);
    FlushFields(h, h', t, pr, w);
    FlushDataStep(h, peer, t, window, e);
    FlushOutStep(h, t, pr, w.packets, h'.sent);
    RecvSideGrows(h.sent, h'.sent, peer.k.rcv, peer.delivered);
    NoLossGrows(peer.k.snd, k.rcv, h'.k.rcv);
    AcksCleared(peer.sent, k.rcv, h.delivered);
  }

  lemma ProbeKeepsWindow(pr: Probe, now: u32)
    ensures ProbeTimer(pr, now).rmtWnd == pr.rmtWnd
  {}

  lemma AcksCleared(sent: seq<Frag>, rcv: Receiver, delivered: seq<seq<byte>>)
    requires RecvSide(sent, rcv, delivered)
    ensures RecvSide(sent, rcv.(acks := []), delivered) && AcksOk(rcv.(acks := []))
  {}

  /** Everything a flush sends is truthful once the new pieces count as sent. */
  lemma FlushOutStep(h: Host, t: Packet, pr: Probe, pushes: seq<Packet>, sent': seq<Frag>)
    requires AcksOk(h.k.rcv) && OutOk(h.out, h.sent, h.k.rcv) && h.sent <= sent'
    requires t.cmd == CMD_ACK && t.una <= h.k.rcv.nxt
    requires forall p :: p in pushes ==> PacketOk(sent', h.k.rcv, p)
    ensures var ps := AckPackets(t, h.k.rcv.acks) + ProbePackets(t, h.k.rcv.acks, pr.ask, pr.tell) + pushes;
            OutOk(h.out + Pack(h.k.cfg.mtu, ps), sent', h.k.rcv.(acks := []))
  {
    hide AckPackets, ProbePackets, Pack, PacketOk;
    var rcv := h.k.rcv;
    var ps := AckPackets(t, rcv.acks) + ProbePackets(t, rcv.acks, pr.ask, pr.tell) + pushes;
    AckPacketsOk(t, rcv.acks, sent', rcv);
    ProbePacketsOk(t, rcv.acks, pr.ask, pr.tell, sent', rcv);
    OutGrows(h.out, h.sent, rcv, sent', rcv);
    OutAppend(h.out, h.k.cfg.mtu, ps, sent', rcv);
    OutGrows(h.out + Pack(h.k.cfg.mtu, ps), sent', rcv, sent', rcv.(acks := []));
  }

  lemma FlushDataStep(h: Host, peer: Host, t: Packet, window: u32, e: Env)
    requires HostInv(h) && Link(h, peer) && window <= MAX_WND && t.una <= h.k.rcv.nxt
    ensures var k := h.k;
            var w := FlushSend(Unbounded, k.cfg, k.snd, k.cong, window, e, t, k.xmit, k.dead);
            var sent' := h.sent + Moved(k.snd.queue, w.snd.queue);
            && SenderInv(Unbounded, w.snd) && w.snd.nxt == |sent'| && FromBuf(w.snd.buf, sent')
            && NoLoss(w.snd, peer.k.rcv) && sent' + w.snd.queue == h.sent + k.snd.queue
            && (forall p :: p in w.packets ==> PacketOk(sent', k.rcv, p))
  {
    hide SenderInv, NoLoss, MoveToBuf, SweepAll, FlushCong, ParseAll, Payload, OutOk, AcksOk, RecvSide, Framed, Small;
    var k := h.k;
    MoveStep(h.sent, k.snd, peer.k.rcv, window, e.current, e.rto);
    var snd := MoveToBuf(Unbounded, k.snd, window, e.current, e.rto);
    var sent' := h.sent + Moved(k.snd.queue, snd.queue);
    var sw0 := Sweep([], [], k.xmit, false, false, k.dead);
    SweepSame(sw0, t, snd.buf, e, k.cfg.deadLink);
    var buf' := SweepAll(sw0, t, snd.buf, e, k.cfg.deadLink).buf;
    SamePiecesKeep(Unbounded, snd, buf');
    SameNoLoss(snd, buf', peer.k.rcv);
    SmallPrefix(sent', snd.queue);
    PushPacketsOk(sw0, t, snd.buf, e, k.cfg.deadLink, sent', k.rcv);
  }

  // ----- every event -----

  lemma ActStep(h: Host, peer: Host, call: Call)
    requires HostInv(h) && HostInv(peer) && Link(h, peer) && Link(peer, h)
    ensures var h' := Act(Unbounded, h, call); HostInv(h') && Link(h', peer) && Link(peer, h')
  {
    hide Flush, AfterFlush, Send, Recv, Tick, FlushDue, Configure, HostInv, Link, RcvGrows;
    match call
    case CallSend(data) =>
      SendStep(h, data);
      SendLinks(h, peer, data);
    case CallRecv(len) =>
      RecvStep(peer, h, len);
      RecvLinks(h, peer, len);
    case CallFlush =>
      FlushStep(h, peer);
    case CallUpdate(now) =>
      var h1 := h.(k := h.k.(clock := Tick(h.k.clock, now, h.k.cfg.interval)));
      ClockOnly(h, peer, h1);
      FlushStep(h1, peer);
      NothingFlushed(h1);
      AfterFlushClock(h, h1, Update(Unbounded, h.k, now));
    case CallConfigure(s) =>
      ConfigureStep(h, peer, s);
  }

  /** Queueing more pieces is nothing to the peer; nor are new settings. */
  lemma SendLinks(h: Host, peer: Host, data: seq<byte>)
    requires Link(h, peer) && Link(peer, h)
    ensures var h' := Act(Unbounded, h, CallSend(data)); Link(h', peer) && Link(peer, h')
  {
    hide Send;
  }

  lemma RecvLinks(h: Host, peer: Host, len: int)
    requires Link(h, peer)
    ensures Link(Act(Unbounded, h, CallRecv(len)), peer)
  {
    hide Drain, MergeCount, ItemBytes, PeekSize, RecvSide, NoLoss;
  }

  lemma ConfigureStep(h: Host, peer: Host, setting: Setting)
    requires HostInv(h) && Link(h, peer) && Link(peer, h)
    ensures var h' := Act(Unbounded, h, CallConfigure(setting)); HostInv(h') && Link(h', peer) && Link(peer, h')
  {
    hide SenderInv, LogOk, Payload, ParseAll, Flatten, OutOk, AcksOk, RecvSide, NoLoss;
  }

  lemma ClockOnly(h: Host, peer: Host, h1: Host)
    requires HostInv(h) && Link(h, peer) && Link(peer, h) && h1 == h.(k := h.k.(clock := h1.k.clock))
    ensures HostInv(h1) && Link(h1, peer) && Link(peer, h1)
  {
    hide SenderInv, LogOk, Payload, ParseAll, Flatten, OutOk, AcksOk, RecvSide, NoLoss;
  }

  lemma AfterFlushClock(h: Host, h1: Host, r: FlushResult)
    requires h1 == h.(k := h.k.(clock := h1.k.clock))
    ensures AfterFlush(h, r) == AfterFlush(h1, r)
  {}

  lemma ReceiveStep(h: Host, peer: Host, i: nat)
    requires HostInv(h) && HostInv(peer) && Link(h, peer) && Link(peer, h) && i < |peer.out|
    ensures var h' := Receive(Unbounded, h, peer.out[i]); HostInv(h') && Link(h', peer) && Link(peer, h')
  {
    assert peer.out[i] in peer.out;
    InputStep(h, peer, peer.out[i], h.k.snd.una, NoAck);
  }

  lemma {:induction false} EveryStateOk(conv: u32, evs: seq<Event>)
    ensures SystemInv(RunAll(Unbounded, conv, evs))
  {
    hide SystemInv, Next;
    if evs == [] {
      StartedOk(conv);
    } else {
      EveryStateOk(conv, evs[..|evs| - 1]);
      NextStep(RunAll(Unbounded, conv, evs[..|evs| - 1]), evs[|evs| - 1]);
    }
  }

  lemma NothingParsed()
    ensures ParseAll(Parse([], []), []) == Parse([], []) && Payload([]) == [] && Flatten([]) == []
  {}

  lemma StartedHost(conv: u32)
    ensures HostInv(Started(conv))
  {
    hide MergeCount, ItemBytes, Link, ParseAll, ParseUna, Drain, InBuf;
    var h := Started(conv);
    NothingParsed();
    assert h.sent + h.k.snd.queue == [] && h.k.snd.buf == [];
  }

  lemma StartedLink(conv: u32)
    ensures Link(Started(conv), Started(conv))
  {
    hide MergeCount, ItemBytes, HostInv, ParseAll, Payload, Flatten, Framed, Small, ParseUna, Drain;
    var h := Started(conv);
    NothingParsed();
    assert h.sent[..h.k.rcv.nxt - |h.k.rcv.queue|] == [] && h.k.rcv.buf == [] && h.k.rcv.nxt == 0;
  }

  lemma StartedOk(conv: u32)
    ensures SystemInv(System(Started(conv), Started(conv)))
  {
    hide HostInv, Link, Started;
    StartedHost(conv);
    StartedLink(conv);
  }

  lemma NextStep(s: System, ev: Event)
    requires SystemInv(s)
    ensures SystemInv(Next(Unbounded, s, ev))
  {
    hide HostInv, Link, Act, Receive;
    match ev
    case Local(atA, call) =>
      if atA { ActStep(s.a, s.b, call); } else { ActStep(s.b, s.a, call); }
    case Deliver(toA, i) =>
      if toA {
        if i < |s.b.out| { ReceiveStep(s.a, s.b, i); }
      } else {
        if i < |s.a.out| { ReceiveStep(s.b, s.a, i); }
      }
  }

  // ----- what the protocol promises -----

  lemma {:induction false} ParsedBytes(p: Parse, fs: seq<Frag>)
    ensures var q := ParseAll(p, fs); Flatten(q.done) + q.open == (Flatten(p.done) + p.open) + Payload(fs)
  {
    if fs == [] {
      assert (Flatten(p.done) + p.open) + [] == Flatten(p.done) + p.open;
    } else {
      var init, last := fs[..|fs| - 1], fs[|fs| - 1];
      ParsedBytes(p, init);
      var q := ParseAll(p, init);
      FlattenAppend1(q.done, q.open + last.data);
      Seqs.Assoc(Flatten(q.done), q.open, last.data);
      Seqs.Assoc(Flatten(p.done) + p.open, Payload(init), last.data);
      assert Flatten(q.done + [q.open + last.data]) + [] == Flatten(q.done + [q.open + last.data]);
    }
  }

  lemma LinkPromises(x: Host, y: Host)
    requires HostInv(x) && Link(x, y)
    ensures x.plain ==> y.delivered <= x.accepted
    ensures Flatten(y.delivered) <= Flatten(x.accepted)
    ensures forall sn :: 0 <= sn < |x.sent| ==> InBuf(x.k.snd.buf, sn) || Accepted(y.k.rcv, sn)
    ensures |y.k.rcv.queue| >= WND_RCV ==> PeekSize(y.k.rcv.queue) >= 0
  {
    hide SenderInv, ItemsFrom, ParseAll, Payload, Flatten, OutOk, AcksOk, NoLoss, MergeCount, ItemBytes;
    var log, c := x.sent + x.k.snd.queue, y.k.rcv.nxt - |y.k.rcv.queue|;
    assert log == x.sent[..c] + log[c..];
    ParseAppend(Parse([], []), x.sent[..c], log[c..]);
    ParseGrows(Parse(y.delivered, []), log[c..]);
    PayloadAppend(x.sent[..c], log[c..]);
    ParsedBytes(Parse([], []), x.sent[..c]);
    NothingParsed();
    assert Flatten(y.delivered) + [] == Flatten(y.delivered) && [] + Payload(x.sent[..c]) == Payload(x.sent[..c]);
    PromisesTail(x, y, log, c);
  }

  lemma PromisesTail(x: Host, y: Host, log: seq<Frag>, c: nat)
    requires HostInv(x) && Link(x, y) && log == x.sent + x.k.snd.queue && c == y.k.rcv.nxt - |y.k.rcv.queue|
    ensures forall sn :: 0 <= sn < |x.sent| ==> InBuf(x.k.snd.buf, sn) || Accepted(y.k.rcv, sn)
    ensures |y.k.rcv.queue| >= WND_RCV ==> PeekSize(y.k.rcv.queue) >= 0
  {
    hide SenderInv, ItemsFrom, ParseAll, Payload, Flatten, OutOk, AcksOk, MergeCount, ItemBytes, InBuf, Accepted,
      Framed;
    if y.k.rcv.queue != [] {
      assert y.k.rcv.queue[0].frag == log[c];
    }
  }

  /** End-to-end safety.  Whatever the applications, the timers and the network do, the messages one
      side receives are a prefix of the messages the other side's `ikcp_send` accepted, in order and
      without gaps or repeats; in stream mode the same holds of the bytes. */
  lemma ReceivedIsPrefixOfSent(conv: u32, evs: seq<Event>)
    ensures var s := RunAll(Unbounded, conv, evs);
            && (s.a.plain ==> s.b.delivered <= s.a.accepted)
            && (s.b.plain ==> s.a.delivered <= s.b.accepted)
            && Flatten(s.b.delivered) <= Flatten(s.a.accepted)
            && Flatten(s.a.delivered) <= Flatten(s.b.accepted)
  {
    EveryStateOk(conv, evs);
    var s := RunAll(Unbounded, conv, evs);
    LinkPromises(s.a, s.b);
    LinkPromises(s.b, s.a);
  }

  /** No segment is lost: each number put into flight is still in the sender's buffer or already in
      the receiver's hands. */
  lemma NoSegmentLost(conv: u32, evs: seq<Event>, sn: nat)
    ensures var s := RunAll(Unbounded, conv, evs);
            && (sn < s.a.k.snd.nxt ==> InBuf(s.a.k.snd.buf, sn) || Accepted(s.b.k.rcv, sn))
            && (sn < s.b.k.snd.nxt ==> InBuf(s.b.k.snd.buf, sn) || Accepted(s.a.k.rcv, sn))
  {
    EveryStateOk(conv, evs);
  }

  /** The receiver cannot wedge: a receive queue that fills the smallest permitted window has a
      complete message at its front. */
  lemma FullQueueHasMessage(conv: u32, evs: seq<Event>)
    ensures var s := RunAll(Unbounded, conv, evs);
            && (|s.a.k.rcv.queue| >= s.a.k.cfg.rcvWnd ==> PeekSize(s.a.k.rcv.queue) >= 0)
            && (|s.b.k.rcv.queue| >= s.b.k.cfg.rcvWnd ==> PeekSize(s.b.k.rcv.queue) >= 0)
  {
    EveryStateOk(conv, evs);
    var s := RunAll(Unbounded, conv, evs);
    LinkPromises(s.a, s.b);
    LinkPromises(s.b, s.a);
  }
}
