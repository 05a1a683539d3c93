/** A receive window whose 16-bit field reads zero wedges a conversation: a state from which no continuation hands
    out what was accepted. */
module KcpWedge {
  import opened SeqNum
  import opened Wire
  import opened KcpSpec
  import opened KcpQueues
  import opened KcpFraming
  import opened KcpSystem
  import opened KcpProgress

  const PIECE: int := MTU_DEF - OVERHEAD

  /** A message of `r + 1` full pieces, sent after one of a single byte. */
  function Long(r: nat): seq<byte> { seq((r + 1) * PIECE, _ => 0) }

  function Pieces(r: nat): seq<Frag> { Cut(PIECE, Long(r), r + 1, false) }

  lemma PiecesAre(r: nat)
    requires r < WND_RCV - 1
    ensures |Pieces(r)| == r + 1 && FragCount(|Long(r)|, PIECE) == r + 1
    ensures |Pieces(r)[0].data| > 0 && forall i :: 0 <= i <= r ==> Pieces(r)[i].frg == r - i
  {
    CutShape(PIECE, Long(r), r + 1, false);
    FullCount(r);
  }

  lemma FullCount(r: nat)
    ensures FragCount((r + 1) * PIECE, PIECE) == r + 1
  {
    assert ((r + 1) * PIECE + (PIECE - 1)) / PIECE == r + 1;
  }

  // ----- the beginning -----

  function Beginning(w: i32, r: nat): seq<Event>
    requires r < WND_RCV - 1
  {
    [Local(false, CallConfigure(SetWnd(0, w))), Local(true, CallConfigure(SetWnd(r + 1, 0))),
     Local(true, CallConfigure(SetNodelay(-1, -1, -1, 1))), Local(true, CallSend([0])), Local(true, CallSend(Long(r)))]
  }

  lemma FiveEvents(conv: u32, s: System, a: Event, b: Event, c: Event, d: Event, e: Event)
    requires s == System(Started(conv), Started(conv))
    ensures RunAll(Unbounded, conv, [a, b, c, d, e])
         == Next(Unbounded, Next(Unbounded, Next(Unbounded, Next(Unbounded, Next(Unbounded, s, a), b), c), d), e)
  {
    hide Next;
    var evs := [a, b, c, d, e];
    assert evs[..4] == [a, b, c, d] && [a, b, c, d][..3] == [a, b, c] && [a, b, c][..2] == [a, b] && [a, b][..1] == [a];
    assert RunAll(Unbounded, conv, [a][..0]) == s;
    assert RunAll(Unbounded, conv, [a]) == Next(Unbounded, s, a);
    assert RunAll(Unbounded, conv, [a, b]) == Next(Unbounded, Next(Unbounded, s, a), b);
    assert RunAll(Unbounded, conv, [a, b, c]) == Next(Unbounded, Next(Unbounded, Next(Unbounded, s, a), b), c);
  }

  lemma SendFirst(cfg: Config)
    requires cfg.stream == 0 && cfg.mtu == MTU_DEF
    ensures Send(cfg, [], [0]) == SendResult([Frag(0, [0])], 1)
  {
    var data: seq<byte> := [0];
    assert data[..1] == data && data[1..] == [] && data[0..] == data;
    assert Cut(PIECE, data, 1, false) == [Frag(0, data)];
    assert [] + [Frag(0, data)] == [Frag(0, data)];
  }

  lemma SendLong(cfg: Config, r: nat)
    requires r < WND_RCV - 1 && cfg.stream == 0 && cfg.mtu == MTU_DEF
    ensures Send(cfg, [Frag(0, [0])], Long(r)) == SendResult([Frag(0, [0])] + Pieces(r), |Long(r)|)
  {
    hide FragCount, Cut;
    PiecesAre(r);
    assert Long(r)[0..] == Long(r);
  }

  function Begun(conv: u32, r: nat): Host
    requires r < WND_RCV - 1
  {
    var k := Create(conv);
    Host(k.(cfg := k.cfg.(sndWnd := r + 1, nocwnd := 1), snd := k.snd.(queue := [Frag(0, [0])] + Pieces(r))),
         [], [], [[0], Long(r)], [], true)
  }

  lemma BeginningIs(conv: u32, w: i32, r: nat)
    requires r < WND_RCV - 1 && w >= WND_RCV
    ensures var s := RunAll(Unbounded, conv, Beginning(w, r));
            && s.a == Begun(conv, r) && s.b == Started(conv).(k := s.b.k)
            && s.b.k == Create(conv).(cfg := Create(conv).cfg.(rcvWnd := w))
  {
    hide Send, Pieces, Long, Configure;
    FiveEvents(conv, System(Started(conv), Started(conv)), Beginning(w, r)[0], Beginning(w, r)[1], Beginning(w, r)[2],
               Beginning(w, r)[3], Beginning(w, r)[4]);
    Settings(conv, w, r);
    var cfg := Create(conv).cfg.(sndWnd := r + 1, nocwnd := 1);
    SendFirst(cfg);
    SendLong(cfg, r);
    var one: seq<byte> := [0];
    assert one[..1] == one && Long(r)[..|Long(r)|] == Long(r);
    assert [] + [one] == [one] && [one] + [Long(r)] == [one, Long(r)];
  }

  lemma Settings(conv: u32, w: i32, r: nat)
    requires r < WND_RCV - 1 && w >= WND_RCV
    ensures var cfg := Create(conv).cfg;
            && Configure(cfg, SetWnd(0, w)) == cfg.(rcvWnd := w)
            && Configure(cfg, SetWnd(r + 1, 0)) == cfg.(sndWnd := r + 1)
            && Configure(cfg.(sndWnd := r + 1), SetNodelay(-1, -1, -1, 1)) == cfg.(sndWnd := r + 1, nocwnd := 1)
  {}

  // ----- what is allowed is put into flight and with the receiver -----

  lemma FlushFills(h: Host)
    requires h.k.clock.updated && h.k.cfg.nocwnd != 0 && h.k.snd.nxt == |h.sent|
    ensures var h' := Flushed(h);
            h'.k.snd.queue == [] || |h'.sent| >= h.k.snd.una + Min(h.k.cfg.sndWnd, h.k.probe.rmtWnd)
  {
    hide SweepAll, FlushCong, AckPackets, ProbePackets, Pack;
    var k, e := h.k, EnvOf(h.k.cfg, h.k.rtt.rto, h.k.clock.current);
    var window := SendWindow(k.cfg, ProbeTimer(k.probe, k.clock.current), k.cong);
    MoveLimit(k.snd, window, e.current, e.rto);
    var n := MoveShape(k.snd, window, e.current, e.rto);
  }

  lemma WithinTwice(h: Host, h1: Host, h2: Host)
    requires Within(h, h1) && Within(h1, h2) && h1.k.cfg == h.k.cfg
    ensures Within(h, h2)
  {}

  lemma {:induction false} CatchUp(conv: u32, s: System) returns (evs: seq<Event>, t: System)
    requires Live(conv, s)
    ensures Reaches(conv, s, evs, t) && t.b.k.rcv.nxt == |t.a.sent| && PeekSize(t.b.k.rcv.queue) < 0
    ensures t.b.out == s.b.out && Within(s.a, t.a)
    decreases |Log(s.a)| - s.b.k.rcv.nxt
  {
    hide Reaches, Live, PeekSize, Within;
    evs, t := Consume(conv, s);
    ReachesIs(conv, s, evs, t);
    ConvIs(conv, t);
    SelfWithin(s.a);
    if t.b.k.rcv.nxt < |t.a.sent| {
      ShortQueue(conv, t);
      var e1, t1 := Push(conv, t);
      ReachesIs(conv, t, e1, t1);
      ConvIs(conv, t1);
      var e2, t2 := CatchUp(conv, t1);
      Then(conv, s, evs, t, e1, t1);
      Then(conv, s, evs + e1, t1, e2, t2);
      WithinTwice(s.a, t1.a, t2.a);
      evs, t := evs + e1 + e2, t2;
    }
  }

  lemma SelfWithin(h: Host)
    ensures Within(h, h)
  {}

  // ----- the wedge -----

  /** The receiver holds the first `r` pieces of the long message and can only say that its window is zero; the
      sender has used up the window it had at first. */
  ghost predicate Wedged(conv: u32, r: nat, s: System) {
    && Live(conv, s) && s.a.k.cfg.sndWnd == r + 1 && |s.a.sent| == r + 1 && s.b.k.rcv.nxt == r + 1
    && (s.a.k.snd.una == 0 || s.a.k.probe.rmtWnd == 0)
    && s.b.k.cfg.rcvWnd >= r && s.b.k.cfg.rcvWnd % 0x1_0000 == r
    && |s.b.k.rcv.queue| == r && PeekSize(s.b.k.rcv.queue) < 0
    && (forall d, p :: d in s.b.out && p in d ==> p.wnd == 0)
    && |Log(s.a)| > 0 && Log(s.a)[0] == Frag(0, [0]) && s.a.accepted == [[0], Long(r)]
  }

  /** Windows that are told as zero leave the sender where it was, or closed. */
  ghost predicate Closed(k: Kcp, k': Kcp) {
    k'.probe.rmtWnd == 0 || (k'.snd.una == k.snd.una && k'.probe.rmtWnd == k.probe.rmtWnd)
  }

  lemma {:induction false} InputCloses(k: Kcp, d: Datagram, prevUna: nat, newest: Newest)
    requires forall p :: p in d ==> p.wnd == 0
    ensures Closed(k, InputSegs(Unbounded, k, d, prevUna, newest).k)
    decreases |d|
  {
    hide InputSeg, FinishInput, KnownCmd;
    if d == [] {
      FinishOnward(k, prevUna, newest);
    } else if d[0].conv == k.cfg.conv && KnownCmd(d[0].cmd) {
      assert d[0] in d;
      TakesWindow(k, d[0]);
      InputCloses(InputSeg(Unbounded, k, d[0]), d[1..], prevUna, NewestAfter(Unbounded, newest, d[0]));
    }
  }

  lemma TakesWindow(k: Kcp, p: Packet)
    ensures InputSeg(Unbounded, k, p).probe.rmtWnd == p.wnd
  {
    hide ParseUna, ParseAck, ShrinkBuf, TakePush, UpdateAck;
  }

  lemma {:induction false} InputQueue(k: Kcp, d: Datagram, prevUna: nat, newest: Newest)
    ensures var k' := InputSegs(Unbounded, k, d, prevUna, newest).k;
            k'.rcv.nxt == k.rcv.nxt ==> k'.rcv.queue == k.rcv.queue
    decreases |d|
  {
    hide InputSeg, FinishInput;
    if d == [] {
      FinishOnward(k, prevUna, newest);
    } else if d[0].conv == k.cfg.conv && KnownCmd(d[0].cmd) {
      SegOnward(k, d[0]);
      InputOnward(InputSeg(Unbounded, k, d[0]), d[1..], prevUna, NewestAfter(Unbounded, newest, d[0]));
      InputQueue(InputSeg(Unbounded, k, d[0]), d[1..], prevUna, NewestAfter(Unbounded, newest, d[0]));
    }
  }

  /** A flush of the receiver says zero. */
  lemma FlushSaysZero(h: Host)
    requires |h.k.rcv.queue| == h.k.cfg.rcvWnd % 0x1_0000 <= h.k.cfg.rcvWnd
    requires forall d, p :: d in h.out && p in d ==> p.wnd == 0
    ensures forall d, p :: d in Flushed(h).out && p in d ==> p.wnd == 0
    ensures Flushed(h).k.rcv.queue == h.k.rcv.queue && Flushed(h).k.rcv.nxt == h.k.rcv.nxt
  {
    hide Flush, Pack;
    FlushSays(h.k);
    PackContents(h.k.cfg.mtu, Flush(Unbounded, h.k).packets);
    FlushKeepsQueue(h.k);
    assert WndField(h.k) == 0;
  }

  lemma FlushKeepsQueue(k: Kcp)
    ensures var r := Flush(Unbounded, k).k.rcv; r.queue == k.rcv.queue && r.nxt == k.rcv.nxt
  {
    hide FlushSend, ProbeTimer;
  }

  lemma ActAtReceiver(h: Host, call: Call)
    requires !call.CallSend? && !call.CallConfigure? && PeekSize(h.k.rcv.queue) < 0
    requires |h.k.rcv.queue| == h.k.cfg.rcvWnd % 0x1_0000 <= h.k.cfg.rcvWnd
    requires forall d, p :: d in h.out && p in d ==> p.wnd == 0
    ensures var h' := Act(Unbounded, h, call);
            && (forall d, p :: d in h'.out && p in d ==> p.wnd == 0)
            && h'.k.rcv.queue == h.k.rcv.queue && h'.k.rcv.nxt == h.k.rcv.nxt
  {
    hide Flush, Pack, PeekSize, Tick, FlushDue;
    match call
    case CallRecv(len) =>
    case CallFlush => FlushSaysZero(h);
    case CallUpdate(now) =>
      var h1 := Timed(h, Tick(h.k.clock, now, h.k.cfg.interval));
      FlushSaysZero(h1);
      NothingFlushed(h1);
      AfterFlushClock(h, h1, Update(Unbounded, h.k, now));
  }

  lemma ActAtSender(h: Host, call: Call)
    requires !call.CallSend? && !call.CallConfigure? && h.k.snd.nxt == |h.sent|
    ensures Within(h, Act(Unbounded, h, call))
  {
    hide Flush, Pack, Tick, FlushDue;
    match call
    case CallRecv(len) => RecvWithin(h, len);
    case CallFlush => FlushWithin(h);
    case CallUpdate(now) =>
      var h1 := Timed(h, Tick(h.k.clock, now, h.k.cfg.interval));
      FlushWithin(h1);
      NothingFlushed(h1);
      AfterFlushClock(h, h1, Update(Unbounded, h.k, now));
  }

  lemma RecvWithin(h: Host, len: int)
    ensures Within(h, Act(Unbounded, h, CallRecv(len)))
  {
    hide Drain, MergeCount, ItemBytes, PeekSize;
  }

  lemma UnaBelow(conv: u32, s: System)
    requires Live(conv, s)
    ensures s.a.k.snd.una <= |s.a.sent|
  {
    hide LogOk, Payload, ParseAll, Flatten, OutOk, AcksOk, Link;
  }

  /** Nothing quiet gets out of it. */
  lemma WedgedStep(conv: u32, r: nat, s: System, ev: Event)
    requires Wedged(conv, r, s) && QuietEvent(s, ev)
    ensures Wedged(conv, r, Next(Unbounded, s, ev))
  {
    hide Live, Act, Receive, PeekSize, Long;
    var t := Next(Unbounded, s, ev);
    LiveStep(conv, s, ev);
    QuietOnward(s, ev);
    ConvIs(conv, s);
    ConvIs(conv, t);
    UnaBelow(conv, s);
    match ev
    case Local(atA, call) =>
      if atA {
        ActAtSender(s.a, call);
      } else {
        ActAtReceiver(s.b, call);
      }
    case Deliver(toA, i) =>
      if toA && i < |s.b.out| {
        ReceiveCloses(s.a, s.b.out[i]);
      }
      if !toA && i < |s.a.out| {
        ReceiveKeeps(s.b, s.a.out[i]);
      }
  }

  lemma ReceiveCloses(h: Host, d: Datagram)
    requires forall p :: p in d ==> p.wnd == 0
    ensures var h' := Receive(Unbounded, h, d); Closed(h.k, h'.k) && h'.sent == h.sent
  {
    hide InputSegs;
    InputCloses(h.k, d, h.k.snd.una, NoAck);
  }

  lemma ReceiveKeeps(h: Host, d: Datagram)
    ensures var h' := Receive(Unbounded, h, d);
            h'.out == h.out && (h'.k.rcv.nxt == h.k.rcv.nxt ==> h'.k.rcv.queue == h.k.rcv.queue)
  {
    hide InputSegs;
    InputQueue(h.k, d, h.k.snd.una, NoAck);
  }

  lemma {:induction false} WedgedForever(conv: u32, r: nat, s: System, more: seq<Event>)
    requires Wedged(conv, r, s) && Quietly(s, more)
    ensures Wedged(conv, r, RunOn(s, more))
  {
    hide Wedged, Next, QuietEvent;
    if more != [] {
      WedgedForever(conv, r, s, more[..|more| - 1]);
      WedgedStep(conv, r, RunOn(s, more[..|more| - 1]), more[|more| - 1]);
    }
  }

  /** And the long message has not been handed out. */
  lemma NotHandedOut(conv: u32, r: nat, s: System)
    requires Wedged(conv, r, s)
    ensures !HandedOut(s.a, s.b)
  {
    hide SendSide, AcksOk, OutOk, NoLoss, ItemsFrom, Drained, PeekSize;
    var one: seq<byte> := [0];
    assert s.a.sent[..1] == [Frag(0, one)];
    ParseOne(Parse([], []), Frag(0, one));
    assert [] + one == one && [] + [one] == [one];
    assert s.b.delivered == [one];
    FlattenTwo(one, Long(r));
  }

  lemma FlattenTwo(a: seq<byte>, b: seq<byte>)
    ensures Flatten([a]) == a && Flatten([a, b]) == a + b
  {
    assert [a, b][..1] == [a] && [a][..0] == [] && [] + a == a;
  }

  // ----- getting there -----

  /** With `r + 1` pieces arrived and no complete message left, exactly the short message was taken. */
  lemma LongIncomplete(conv: u32, r: nat, s: System)
    requires r < WND_RCV - 1 && Live(conv, s) && Log(s.a) == [Frag(0, [0])] + Pieces(r)
    requires |s.a.sent| == s.b.k.rcv.nxt == r + 1 && PeekSize(s.b.k.rcv.queue) < 0
    ensures |s.b.k.rcv.queue| == r
  {
    hide SendSide, AcksOk, OutOk, NoLoss, ItemsFrom, Drained, ItemBytes, MergeCount, Pieces;
    var c := r + 1 - |s.b.k.rcv.queue|;
    var log := Log(s.a);
    assert s.a.sent[..c] == log[..c];
    PiecesAre(r);
    if s.b.k.rcv.queue != [] {
      assert s.b.k.rcv.queue[0].frag == s.a.sent[c];
      NotShort(s.b.k.rcv.queue, log[0]);
    }
    if c >= 2 {
      var fs := Pieces(r)[..c - 1];
      assert log[..c] == [Frag(0, [0])] + fs;
      OpenAfter(fs);
    }
  }

  lemma NotShort(queue: seq<Item>, f: Frag)
    requires queue != [] && PeekSize(queue) < 0 && f.frg == 0
    ensures queue[0].frag != f
  {}

  lemma OpenAfter(fs: seq<Frag>)
    requires fs != [] && fs[0].data != [] && forall i :: 0 <= i < |fs| ==> fs[i].frg > 0
    ensures ParseAll(Parse([], []), [Frag(0, [0])] + fs).open != []
  {
    hide Payload, ParseAll;
    ParseAppend(Parse([], []), [Frag(0, [0])], fs);
    ParseOne(Parse([], []), Frag(0, [0]));
    OpenParses(Take(Parse([], []), Frag(0, [0])), fs);
    NonemptyPayload(fs);
  }

  lemma {:induction false} NonemptyPayload(fs: seq<Frag>)
    requires fs != [] && fs[0].data != []
    ensures Payload(fs) != []
  {
    if |fs| > 1 {
      NonemptyPayload(fs[..|fs| - 1]);
    } else {
      assert fs[..0] == [];
    }
  }

  /** For every window that can be told as zero with a message incomplete, some run ends in a wedge. */
  lemma Wedge(conv: u32, w: nat) returns (evs: seq<Event>)
    requires WND_RCV <= w < HALF && !Tellable(w)
    ensures RunAll(Unbounded, conv, evs).b.k.cfg.rcvWnd == w && !CanFinish(RunAll(Unbounded, conv, evs))
  {
    hide Live, Reaches, PeekSize, Long, Pieces, RunOn, Quietly, HandedOut, Wedged, Within, RunAll;
    var r := w % 0x1_0000;
    evs := Beginning(w, r);
    BeginningIs(conv, w, r);
    var s := RunAll(Unbounded, conv, evs);
    EveryStateLive(conv, evs);
    NowIs(0);
    var e1, t1, c := FlushAt(conv, s, true, 0);
    BegunFlush(conv, r, c);
    ReachesIs(conv, s, e1, t1);
    var e2, t2 := CatchUp(conv, t1);
    ReachesIs(conv, t1, e2, t2);
    Then(conv, s, e1, t1, e2, t2);
    WedgedNow(conv, w, r, t1, t2);
    RunAllReached(conv, evs, s, e1 + e2, t2);
    evs := evs + (e1 + e2);
    forall more | Quietly(t2, more) ensures !HandedOut(RunOn(t2, more).a, RunOn(t2, more).b) {
      WedgedForever(conv, r, t2, more);
      NotHandedOut(conv, r, RunOn(t2, more));
    }
  }

  lemma RunAllReached(conv: u32, evs: seq<Event>, s: System, more: seq<Event>, t: System)
    requires s == RunAll(Unbounded, conv, evs) && Reaches(conv, s, more, t)
    ensures RunAll(Unbounded, conv, evs + more) == t
  {
    RunAllAppend(conv, evs, more);
  }

  lemma BegunFlush(conv: u32, r: nat, c: Clock)
    requires r < WND_RCV - 1 && c.updated
    ensures var h := Flushed(Timed(Begun(conv, r), c));
            && |h.sent| == r + 1 && h.k.snd.una == 0 && h.k.probe.rmtWnd == WND_RCV && h.k.cfg.sndWnd == r + 1
            && Log(h) == [Frag(0, [0])] + Pieces(r) && h.accepted == [[0], Long(r)]
  {
    hide Flush, Pieces, Long, AfterFlush;
    var h := Timed(Begun(conv, r), c);
    PiecesAre(r);
    FlushOnward(h);
    FlushWithin(h);
    FlushFills(h);
    assert [] + ([Frag(0, [0])] + Pieces(r)) == [Frag(0, [0])] + Pieces(r);
  }

  lemma WedgedNow(conv: u32, w: nat, r: nat, s: System, t: System)
    requires WND_RCV <= w && r == w % 0x1_0000 < WND_RCV - 1 && Live(conv, t) && Onward(s.a, t.a) && Onward(s.b, t.b)
    requires |s.a.sent| == r + 1 && s.a.k.snd.una == 0 && s.a.k.probe.rmtWnd == WND_RCV && s.a.k.cfg.sndWnd == r + 1
    requires Log(s.a) == [Frag(0, [0])] + Pieces(r) && s.a.accepted == [[0], Long(r)]
    requires s.b.k.cfg.rcvWnd == w && s.b.out == t.b.out == []
    requires t.b.k.rcv.nxt == |t.a.sent| && PeekSize(t.b.k.rcv.queue) < 0 && Within(s.a, t.a)
    ensures Wedged(conv, r, t)
  {
    hide Live, PeekSize, Long, Pieces;
    LongIncomplete(conv, r, t);
  }

  /** So a receive window always lets everything through exactly if its low 16 bits are at least 127. */
  lemma TellableExactly(conv: u32, w: nat)
    requires WND_RCV <= w < HALF
    ensures Tellable(w) <==> forall evs :: RunAll(Unbounded, conv, evs).b.k.cfg.rcvWnd == w ==>
              CanFinish(RunAll(Unbounded, conv, evs))
  {
    hide RunAll, CanFinish, Tellable;
    if Tellable(w) {
      forall evs | RunAll(Unbounded, conv, evs).b.k.cfg.rcvWnd == w ensures CanFinish(RunAll(Unbounded, conv, evs)) {
        OneWay(conv, evs);
      }
    } else {
      var evs := Wedge(conv, w);
    }
  }
}
