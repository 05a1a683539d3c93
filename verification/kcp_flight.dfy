/** What one flush puts in flight, sends and leaves behind, said of its whole effect on the control block. */
module KcpFlight {
  import opened SeqNum
  import opened Wire
  import opened KcpSpec
  import opened KcpQueues
  import KcpTiming

  // ----- filling the window -----

  /** How many pieces may be in flight: no more than the application allows, no more than the peer has room
      for, and no more than the congestion window says unless that is switched off. */
  function Limit(k: Kcp): (w: nat)
    ensures w <= k.cfg.sndWnd && w <= k.probe.rmtWnd && (k.cfg.nocwnd == 0 ==> w <= k.cong.cwnd)
    ensures w == k.cfg.sndWnd || w == k.probe.rmtWnd || (k.cfg.nocwnd == 0 && w == k.cong.cwnd)
  {
    var w := if k.cfg.sndWnd <= k.probe.rmtWnd then k.cfg.sndWnd else k.probe.rmtWnd;
    if k.cfg.nocwnd == 0 && k.cong.cwnd < w then k.cong.cwnd else w
  }

  /** How many pieces are in flight. */
  function InFlightCount(ar: Arith, snd: Sender): int { Offset(ar, snd.nxt, snd.una) }

  /** How many queued pieces there is room for. */
  function Entering(ar: Arith, k: Kcp): nat {
    Min(|k.snd.queue|, Max(0, Limit(k) - InFlightCount(ar, k.snd)))
  }

  /** Pieces as they enter flight, numbered from `nxt` on. */
  function Entered(ar: Arith, pieces: seq<Frag>, nxt: nat, now: u32, rto: u32): (buf: seq<Seg>)
    ensures |buf| == |pieces|
    ensures forall i :: 0 <= i < |buf| ==> buf[i] == Seg(Add(ar, nxt, i), pieces[i], now, now, rto, 0, 0)
  {
    seq(|pieces|, i requires 0 <= i < |pieces| => Seg(Add(ar, nxt, i), pieces[i], now, now, rto, 0, 0))
  }

  lemma {:induction false} MoveFills(ar: Arith, snd: Sender, wnd: nat, now: u32, rto: u32)
    requires SenderInv(ar, snd) && wnd <= MAX_WND
    ensures var n := Min(|snd.queue|, Max(0, wnd - InFlightCount(ar, snd)));
            MoveToBuf(ar, snd, wnd, now, rto) ==
              Sender(snd.una, Add(ar, snd.nxt, n), snd.queue[n..],
                     snd.buf + Entered(ar, snd.queue[..n], snd.nxt, now, rto))
    decreases |snd.queue|
  {
    hide SenderInv, Diff, Offset, Add, MoveToBuf, Entered, MoveOne;
    MoreRoom(ar, snd, wnd, now, rto);
    MoveNext(ar, snd, wnd, now, rto);
    var n := Min(|snd.queue|, Max(0, wnd - InFlightCount(ar, snd)));
    if n > 0 {
      OneGone(ar, snd, now, rto);
      MoveFills(ar, MoveOne(ar, snd, now, rto), wnd, now, rto);
      EnterOne(ar, snd, n, now, rto);
    } else {
      NoneEnters(ar, snd, now, rto);
    }
  }

  lemma MoveNext(ar: Arith, snd: Sender, wnd: nat, now: u32, rto: u32)
    ensures MoveToBuf(ar, snd, wnd, now, rto) ==
      if Diff(ar, snd.nxt, Add(ar, snd.una, wnd)) < 0 && snd.queue != []
      then MoveToBuf(ar, MoveOne(ar, snd, now, rto), wnd, now, rto) else snd
  {
    hide Diff, Add;
  }

  lemma OneGone(ar: Arith, snd: Sender, now: u32, rto: u32)
    requires snd.queue != []
    ensures var one := MoveOne(ar, snd, now, rto); one.una == snd.una && |one.queue| == |snd.queue| - 1
  {}

  /** The signed comparison says whether there is room, and a piece that enters takes one place. */
  lemma MoreRoom(ar: Arith, snd: Sender, wnd: nat, now: u32, rto: u32)
    requires SenderInv(ar, snd) && wnd <= MAX_WND
    ensures Fits(ar, snd.nxt)
    ensures Diff(ar, snd.nxt, Add(ar, snd.una, wnd)) < 0 <==> InFlightCount(ar, snd) < wnd
    ensures Diff(ar, snd.nxt, Add(ar, snd.una, wnd)) < 0 && snd.queue != [] ==>
              var one := MoveOne(ar, snd, now, rto);
              SenderInv(ar, one) && InFlightCount(ar, one) == InFlightCount(ar, snd) + 1
  {
    OffsetOfAdd(ar, snd.una, wnd);
    DiffIsOffsetDistance(ar, snd.nxt, Add(ar, snd.una, wnd), snd.una);
    if Diff(ar, snd.nxt, Add(ar, snd.una, wnd)) < 0 && snd.queue != [] {
      OffsetSucc(ar, snd.nxt, snd.una);
    }
  }

  lemma EnterOne(ar: Arith, snd: Sender, n: nat, now: u32, rto: u32)
    requires 0 < n <= |snd.queue| && Fits(ar, snd.nxt)
    ensures var one := MoveOne(ar, snd, now, rto);
            && Add(ar, one.nxt, n - 1) == Add(ar, snd.nxt, n) && one.queue[n - 1..] == snd.queue[n..]
            && one.buf + Entered(ar, one.queue[..n - 1], one.nxt, now, rto)
               == snd.buf + Entered(ar, snd.queue[..n], snd.nxt, now, rto)
  {
    hide Add;
    var one := MoveOne(ar, snd, now, rto);
    var a, b := Entered(ar, one.queue[..n - 1], one.nxt, now, rto), Entered(ar, snd.queue[..n], snd.nxt, now, rto);
    AddAdd(ar, snd.nxt, 1, n - 1);
    forall i | 0 <= i < n ensures b[i] == if i == 0 then Seg(snd.nxt, snd.queue[0], now, now, rto, 0, 0) else a[i - 1] {
      if i == 0 { AddZero(ar, snd.nxt); } else { AddAdd(ar, snd.nxt, 1, i - 1); }
    }
  }

  lemma NoneEnters(ar: Arith, snd: Sender, now: u32, rto: u32)
    requires Fits(ar, snd.nxt)
    ensures snd == Sender(snd.una, Add(ar, snd.nxt, 0), snd.queue[0..],
                          snd.buf + Entered(ar, snd.queue[..0], snd.nxt, now, rto))
  {}

  // ----- the pass over what is in flight -----

  /** When a flush sends a piece in flight: for the first time, when its time has come, or when enough later
      pieces have been acknowledged and it has not been sent too often for that. */
  predicate Unsent(seg: Seg) { seg.xmit == 0 }

  predicate TimedOut(k: Kcp, seg: Seg) { seg.xmit > 0 && TimeDiff(k.clock.current, seg.resendts) >= 0 }

  predicate PassedOver(k: Kcp, seg: Seg) {
    && seg.xmit > 0 && !TimedOut(k, seg)
    && seg.fastack >= (if k.cfg.fastresend > 0 then k.cfg.fastresend % WORD else 0xffff_ffff)
    && (k.cfg.fastlimit <= 0 || ToI32(seg.xmit) <= k.cfg.fastlimit)
  }

  predicate Wanted(k: Kcp, seg: Seg) { Unsent(seg) || TimedOut(k, seg) || PassedOver(k, seg) }

  /** The segment on the wire: its piece, the time, what this side has received and has room for. */
  function OnWire(k: Kcp, cmd: byte, frg: byte, ts: u32, sn: nat, data: seq<byte>): Packet {
    var free: int := if |k.rcv.queue| < k.cfg.rcvWnd then k.cfg.rcvWnd - |k.rcv.queue| else 0;
    Packet(k.cfg.conv, cmd, frg, free % 0x1_0000, ts, sn, k.rcv.nxt, data)
  }

  /** The timeout after a timeout: doubled at least, or with the first no-delay setting longer by half, or with
      the second by half of the current estimate. */
  function Longer(k: Kcp, seg: Seg): u32 {
    if k.cfg.nodelay == 0 then (seg.rto + if seg.rto >= k.rtt.rto then seg.rto else k.rtt.rto) % WORD
    else if k.cfg.nodelay == 1 then (seg.rto + TruncDiv(ToI32(seg.rto), 2)) % WORD
    else (seg.rto + k.rtt.rto / 2) % WORD
  }

  /** What the flush leaves of a piece in flight. */
  predicate Outcome(k: Kcp, seg: Seg, seg': Seg) {
    var now := k.clock.current;
    && seg'.sn == seg.sn && seg'.frag == seg.frag
    && (!Wanted(k, seg) ==> seg' == seg)
    && (Wanted(k, seg) ==> seg'.ts == now && seg'.xmit == (seg.xmit + 1) % WORD)
    && (Unsent(seg) ==>
          && seg'.rto == k.rtt.rto && seg'.fastack == seg.fastack
          && seg'.resendts == (now + k.rtt.rto + if k.cfg.nodelay == 0 then k.rtt.rto / 8 else 0) % WORD)
    && (TimedOut(k, seg) ==>
          && seg'.rto == Longer(k, seg) && seg'.fastack == seg.fastack && seg'.resendts == (now + seg'.rto) % WORD)
    && (PassedOver(k, seg) ==> seg'.resendts == (now + seg.rto) % WORD && seg'.fastack == 0 && seg'.rto == seg.rto)
  }

  /** What a pass over `buf` leaves of it, what it sends, and what it notes. */
  ghost predicate Leaves(k: Kcp, buf: seq<Seg>, buf': seq<Seg>) {
    |buf'| == |buf| && forall i :: 0 <= i < |buf| ==> Outcome(k, buf[i], buf'[i])
  }

  ghost predicate SendsOnly(k: Kcp, buf: seq<Seg>, idx: seq<nat>, packets: seq<Packet>) {
    && Picks(k, buf, idx) && |packets| == |idx|
    && forall j :: 0 <= j < |idx| ==> packets[j] == PieceOnWire(k, buf[idx[j]])
  }

  ghost predicate Lost(k: Kcp, buf: seq<Seg>) { exists i :: 0 <= i < |buf| && TimedOut(k, buf[i]) }

  ghost predicate Hurried(k: Kcp, buf: seq<Seg>) { exists i :: 0 <= i < |buf| && PassedOver(k, buf[i]) }

  /** Some piece is sent, and has then been sent as often as a dead link takes. */
  ghost predicate WornOut(k: Kcp, buf: seq<Seg>) {
    exists i :: 0 <= i < |buf| && Wanted(k, buf[i]) && (buf[i].xmit + 1) % WORD >= k.cfg.deadLink
  }

  ghost predicate Notes(k: Kcp, buf: seq<Seg>, sw: Sweep) {
    && (sw.lost <==> Lost(k, buf)) && (sw.change <==> Hurried(k, buf))
    && (sw.dead <==> k.dead || WornOut(k, buf))
    && sw.xmit == (k.xmit + Timeouts(k, buf)) % WORD
  }

  function PieceOnWire(k: Kcp, seg: Seg): Packet {
    OnWire(k, CMD_PUSH, seg.frag.frg % 0x100, k.clock.current, seg.sn, seg.frag.data)
  }

  /** `idx` are the places of the wanted segments, in order. */
  ghost predicate Picks(k: Kcp, buf: seq<Seg>, idx: seq<nat>) {
    Rising(idx, |buf|) && OnlyWanted(k, buf, idx) && AllWanted(k, buf, idx)
  }

  ghost predicate Rising(idx: seq<nat>, n: nat) {
    && (forall j :: 0 <= j < |idx| ==> idx[j] < n)
    && (forall i, j :: 0 <= i < j < |idx| ==> idx[i] < idx[j])
  }

  ghost predicate OnlyWanted(k: Kcp, buf: seq<Seg>, idx: seq<nat>) {
    forall i :: i in idx ==> i < |buf| && Wanted(k, buf[i])
  }

  ghost predicate AllWanted(k: Kcp, buf: seq<Seg>, idx: seq<nat>) {
    forall i :: 0 <= i < |buf| && Wanted(k, buf[i]) ==> i in idx
  }

  function Timeouts(k: Kcp, buf: seq<Seg>): nat {
    if buf == [] then 0 else Timeouts(k, buf[..|buf| - 1]) + if TimedOut(k, buf[|buf| - 1]) then 1 else 0
  }

  function Now(k: Kcp): Env { EnvOf(k.cfg, k.rtt.rto, k.clock.current) }

  lemma FateIs(k: Kcp, seg: Seg)
    ensures FateOf(seg, Now(k)) ==
      if Unsent(seg) then First else if TimedOut(k, seg) then Timeout else if PassedOver(k, seg) then Fast else Keep
    ensures (TimedOut(k, seg) ==> !Unsent(seg)) && (PassedOver(k, seg) ==> !Unsent(seg) && !TimedOut(k, seg))
  {}

  lemma TouchIs(k: Kcp, seg: Seg)
    ensures Outcome(k, seg, Touch(seg, Now(k)))
  {
    hide TimeDiff, Backoff, ToI32, Longer;
    FateIs(k, seg);
    LongerIs(k, seg);
  }

  lemma LongerIs(k: Kcp, seg: Seg)
    ensures Backoff(seg, Now(k)) == Longer(k, seg)
  {
    hide ToI32;
  }

  function Pass(k: Kcp, buf: seq<Seg>): Sweep {
    SweepAll(Sweep([], [], k.xmit, false, false, k.dead), Template(k), buf, Now(k), k.cfg.deadLink)
  }

  lemma PassNext(k: Kcp, buf: seq<Seg>)
    requires buf != []
    ensures var sw, seg := Pass(k, buf[..|buf| - 1]), buf[|buf| - 1];
            var seg' := Touch(seg, Now(k));
            Pass(k, buf) == Sweep(sw.buf + [seg'], if Wanted(k, seg) then sw.packets + [PieceOnWire(k, seg)]
                else sw.packets,
                                  if TimedOut(k, seg) then (sw.xmit + 1) % WORD else sw.xmit,
                                  sw.lost || TimedOut(k, seg), sw.change || PassedOver(k, seg),
                                  sw.dead || (Wanted(k, seg) && (seg.xmit + 1) % WORD >= k.cfg.deadLink))
  {
    hide TimeDiff, Backoff, ToI32, Touch, FateOf, TimedOut, PassedOver;
    var sw, seg := Pass(k, buf[..|buf| - 1]), buf[|buf| - 1];
    FateIs(k, seg);
    TouchIs(k, seg);
    assert Pass(k, buf) == SweepSeg(sw, Template(k), seg, Now(k), k.cfg.deadLink);
    assert PushPacket(Template(k), Touch(seg, Now(k)), k.clock.current) == PieceOnWire(k, seg);
    assert Wanted(k, seg) <==> FateOf(seg, Now(k)) != Keep;
    assert TimedOut(k, seg) <==> FateOf(seg, Now(k)) == Timeout;
    assert PassedOver(k, seg) <==> FateOf(seg, Now(k)) == Fast;
    assert Wanted(k, seg) ==> Touch(seg, Now(k)).xmit == (seg.xmit + 1) % WORD;
    assert Inc(sw.xmit) == (sw.xmit + 1) % WORD;
  }

  lemma {:induction false} PassLeaves(k: Kcp, buf: seq<Seg>)
    ensures Leaves(k, buf, Pass(k, buf).buf)
  {
    hide Pass, Outcome, Touch;
    if buf == [] {
      PassNone(k);
    } else {
      PassNext(k, buf);
      PassLeaves(k, buf[..|buf| - 1]);
      TouchIs(k, buf[|buf| - 1]);
    }
  }

  lemma PassNone(k: Kcp)
    ensures Pass(k, []) == Sweep([], [], k.xmit, false, false, k.dead)
  {}

  lemma {:induction false} PassSends(k: Kcp, buf: seq<Seg>) returns (idx: seq<nat>)
    ensures SendsOnly(k, buf, idx, Pass(k, buf).packets)
  {
    hide Pass, Wanted, Touch, PieceOnWire, TimedOut, PassedOver, Picks;
    if buf == [] {
      idx := [];
      PickNone(k);
      PassNone(k);
    } else {
      PassNext(k, buf);
      var init := buf[..|buf| - 1];
      var idx0 := PassSends(k, init);
      idx := if Wanted(k, buf[|init|]) then idx0 + [|init|] else idx0;
      PickNext(k, buf, idx0);
      PickedWithin(k, init, idx0);
      assert forall j :: 0 <= j < |idx0| ==> init[idx0[j]] == buf[idx0[j]];
    }
  }

  lemma PickNone(k: Kcp)
    ensures Picks(k, [], [])
  {}

  lemma PickedWithin(k: Kcp, buf: seq<Seg>, idx: seq<nat>)
    requires Picks(k, buf, idx)
    ensures forall j :: 0 <= j < |idx| ==> idx[j] < |buf|
  {}

  lemma PickNext(k: Kcp, buf: seq<Seg>, idx: seq<nat>)
    requires buf != [] && Picks(k, buf[..|buf| - 1], idx)
    ensures Picks(k, buf, if Wanted(k, buf[|buf| - 1]) then idx + [|buf| - 1] else idx)
  {
    hide Wanted, OnlyWanted, AllWanted;
    var n := |buf| - 1;
    Members(idx, n);
    WantedNext(k, buf, idx, if Wanted(k, buf[n]) then idx + [n] else idx);
  }

  lemma Members(idx: seq<nat>, n: nat)
    ensures forall i :: i in idx + [n] <==> i in idx || i == n
  {}

  lemma WantedNext(k: Kcp, buf: seq<Seg>, idx: seq<nat>, idx': seq<nat>)
    requires buf != [] && OnlyWanted(k, buf[..|buf| - 1], idx) && AllWanted(k, buf[..|buf| - 1], idx)
    requires forall i :: i in idx' <==> i in idx || (i == |buf| - 1 && Wanted(k, buf[i]))
    ensures OnlyWanted(k, buf, idx') && AllWanted(k, buf, idx')
  {
    hide Wanted;
    var init := buf[..|buf| - 1];
    assert forall i :: 0 <= i < |init| ==> init[i] == buf[i];
  }

  lemma {:induction false} PassNotes(k: Kcp, buf: seq<Seg>)
    ensures Notes(k, buf, Pass(k, buf))
  {
    hide Pass, Wanted, Touch, PieceOnWire, TimedOut, PassedOver;
    if buf == [] {
      PassNone(k);
    } else {
      PassNext(k, buf);
      var init := buf[..|buf| - 1];
      PassNotes(k, init);
      assert forall i :: 0 <= i < |init| ==> init[i] == buf[i];
      Counts(k.xmit, Timeouts(k, init));
    }
  }

  lemma Counts(a: nat, n: nat)
    ensures ((a + n) % WORD + 1) % WORD == (a + (n + 1)) % WORD
  {}

  // ----- a whole flush -----

  /** What is in flight once the window is filled, before the pass. */
  function Filled(ar: Arith, k: Kcp): (buf: seq<Seg>)
    requires SendHalf(ar, k)
    ensures |buf| == |k.snd.buf| + Entering(ar, k)
  {
    var n := Entering(ar, k);
    k.snd.buf + Entered(ar, k.snd.queue[..n], k.snd.nxt, k.clock.current, k.rtt.rto)
  }

  lemma WindowIs(k: Kcp)
    ensures SendWindow(k.cfg, ProbeTimer(k.probe, k.clock.current), k.cong) == Limit(k)
  {
    hide TimeDiff;
  }

  lemma FlushIs(ar: Arith, k: Kcp)
    requires SendHalf(ar, k) && k.clock.updated
    ensures var k', n, sw := Flush(ar, k).k, Entering(ar, k), Pass(k, Filled(ar, k));
            && k'.snd == Sender(k.snd.una, Add(ar, k.snd.nxt, n), k.snd.queue[n..], sw.buf)
            && k'.dead == sw.dead && k'.xmit == sw.xmit
            && k'.cong == FlushCong(k.cong, k.cfg.Mss(), U32(k'.snd.nxt - k'.snd.una), Limit(k), Now(k).resent,
                                    sw.change, sw.lost)
    ensures var t, pr := Template(k), ProbeTimer(k.probe, k.clock.current);
            Flush(ar, k).packets == AckPackets(t, k.rcv.acks) + ProbePackets(t, k.rcv.acks, pr.ask, pr.tell)
              + Pass(k, Filled(ar, k)).packets
  {
    hide SenderInv, MoveToBuf, SweepAll, AckPackets, ProbePackets, ProbeTimer, SendWindow, FlushCong, Add, Offset;
    WindowIs(k);
    MoveFills(ar, k.snd, Limit(k), k.clock.current, k.rtt.rto);
  }

  /** A flush obeys every window: it puts in flight exactly as many queued pieces as there is room for, in
      order and with the next numbers, and leaves the rest queued. */
  lemma FlushFills(ar: Arith, k: Kcp)
    requires SendHalf(ar, k) && k.clock.updated
    ensures var snd, snd' := k.snd, Flush(ar, k).k.snd;
            var n := Min(|snd.queue|, Max(0, Limit(k) - InFlightCount(ar, snd)));
            && snd'.queue == snd.queue[n..] && snd'.una == snd.una && snd'.nxt == Add(ar, snd.nxt, n)
            && |snd'.buf| == |snd.buf| + n
            && (forall i :: 0 <= i < |snd.buf| ==>
                snd'.buf[i].sn == snd.buf[i].sn && snd'.buf[i].frag == snd.buf[i].frag)
            && (forall i :: 0 <= i < n ==>
                  var seg := snd'.buf[|snd.buf| + i];
                  seg.sn == Add(ar, snd.nxt, i) && seg.frag == snd.queue[i] && seg.xmit == 1)
  {
    hide SendHalf, Flush, Pass, TimedOut, PassedOver, Add, Offset;
    FlushIs(ar, k);
    PassLeaves(k, Filled(ar, k));
    var n, buf := Entering(ar, k), Filled(ar, k);
    forall i | 0 <= i < n
      ensures buf[|k.snd.buf| + i] ==
                Seg(Add(ar, k.snd.nxt, i), k.snd.queue[i], k.clock.current, k.clock.current, k.rtt.rto, 0, 0)
    {}
  }

  lemma {:induction false} AcksOnWire(k: Kcp, acks: seq<Ack>)
    ensures var ps := AckPackets(Template(k), acks);
            |ps| == |acks| && forall i :: 0 <= i < |acks| ==> ps[i] == OnWire(k, CMD_ACK, 0, acks[i].ts, acks[i].sn, [])
  {
    if acks != [] {
      AcksOnWire(k, acks[..|acks| - 1]);
    }
  }

  /** A flush sends one acknowledgement for each piece received since the last, in the order received, then the
      window commands, then exactly the wanted pieces in flight, in order.  Everything on the wire says what
      this side has received in order and has room for. */
  lemma FlushSends(ar: Arith, k: Kcp) returns (idx: seq<nat>)
    requires SendHalf(ar, k) && k.clock.updated
    ensures var ps, n := Flush(ar, k).packets, |k.rcv.acks|;
            && n + |idx| <= |ps| <= n + 2 + |idx|
            && (forall i :: 0 <= i < n ==> ps[i] == OnWire(k, CMD_ACK, 0, k.rcv.acks[i].ts, k.rcv.acks[i].sn, []))
            && (forall i :: n <= i < |ps| - |idx| ==>
                  && (ps[i].cmd == CMD_WASK || ps[i].cmd == CMD_WINS)
                  && ps[i] == OnWire(k, ps[i].cmd, 0, ps[i].ts, ps[i].sn, []))
            && SendsOnly(k, Filled(ar, k), idx, ps[|ps| - |idx|..])
    ensures Flush(ar, k).k.rcv == k.rcv.(acks := [])
  {
    hide SendHalf, Flush, Pass, TimedOut, PassedOver, Filled, AckPackets, ProbeTimer, Picks, OnWire;
    FlushIs(ar, k);
    idx := PassSends(k, Filled(ar, k));
    AcksOnWire(k, k.rcv.acks);
    var pr := ProbeTimer(k.probe, k.clock.current);
    ProbesOnWire(k, k.rcv.acks, pr.ask, pr.tell);
    var a, b, c := AckPackets(Template(k), k.rcv.acks), ProbePackets(Template(k), k.rcv.acks, pr.ask, pr.tell),
        Pass(k, Filled(ar, k)).packets;
    Three(a, b, c);
    FlushClears(ar, k);
  }

  lemma FlushClears(ar: Arith, k: Kcp)
    requires k.clock.updated
    ensures Flush(ar, k).k.rcv == k.rcv.(acks := [])
  {}

  lemma Three(a: seq<Packet>, b: seq<Packet>, c: seq<Packet>)
    ensures var ps := a + b + c;
            && |ps| == |a| + |b| + |c| && ps[|ps| - |c|..] == c && (forall i :: 0 <= i < |a| ==> ps[i] == a[i])
            && (forall i :: |a| <= i < |ps| - |c| ==> ps[i] == b[i - |a|])
  {}

  lemma ProbesOnWire(k: Kcp, acks: seq<Ack>, ask: bool, tell: bool)
    ensures var ps := ProbePackets(Template(k), acks, ask, tell);
            |ps| <= 2 && forall i :: 0 <= i < |ps| ==>
              && (ps[i].cmd == CMD_WASK || ps[i].cmd == CMD_WINS)
              && ps[i] == OnWire(k, ps[i].cmd, 0, ps[i].ts, ps[i].sn, [])
  {}

  /** After a flush each piece is as `Outcome` says, the counter of timeouts has counted them, and the link is
      dead once some piece has been sent so often. */
  lemma FlushLeaves(ar: Arith, k: Kcp)
    requires SendHalf(ar, k) && k.clock.updated
    ensures var k', buf := Flush(ar, k).k, Filled(ar, k);
            && Leaves(k, buf, k'.snd.buf) && k'.xmit == (k.xmit + Timeouts(k, buf)) % WORD
            && (k'.dead <==> k.dead || WornOut(k, buf))
  {
    hide SendHalf, Flush, Pass, TimedOut, PassedOver, Filled, Outcome;
    FlushIs(ar, k);
    PassLeaves(k, Filled(ar, k));
    PassNotes(k, Filled(ar, k));
  }

  /** Nothing at all happens before the first update. */
  lemma FlushIdle(ar: Arith, k: Kcp)
    requires !k.clock.updated
    ensures Flush(ar, k) == FlushResult(k, [])
  {}

  /** After a loss the congestion window starts again at one segment, with half the window that applied as the
      threshold; after a fast retransmission alone it is half of what is in flight, and the pieces that were
      passed over; otherwise it stays, but is one at least. */
  lemma FlushAdapts(ar: Arith, k: Kcp)
    requires SendHalf(ar, k) && k.clock.updated
    ensures var k', c, mss := Flush(ar, k).k, k.cong, k.cfg.Mss();
            var lost, fast, flight := Lost(k, k.snd.buf), Hurried(k, k.snd.buf), InFlightCount(ar, k'.snd);
            && (lost ==> k'.cong == Cong(1, mss, if Limit(k) < 4 then 2 else Limit(k) / 2))
            && (!lost && fast && 0 < k.cfg.fastresend < HALF ==>
                  && k'.cong.ssthresh == (if flight < 4 then 2 else flight / 2)
                  && k'.cong.cwnd == k'.cong.ssthresh + k.cfg.fastresend && k'.cong.incr == U32(k'.cong.cwnd * mss))
            && (!lost && !fast ==> k'.cong == if c.cwnd == 0 then Cong(1, mss, c.ssthresh) else c)
  {
    hide Flush, Pass, TimedOut, PassedOver, Filled, FlushCong, Lost, Hurried, SenderInv, Offset, SegsFrom;
    FlushIs(ar, k);
    PassNotes(k, Filled(ar, k));
    FreshOnes(ar, k);
    FlushKeeps(ar, k);
    var snd' := Flush(ar, k).k.snd;
    FlightIs(ar, snd');
    AdaptsTo(k, InFlightCount(ar, snd'), Lost(k, k.snd.buf), Hurried(k, k.snd.buf));
  }

  lemma FlightIs(ar: Arith, snd: Sender)
    requires SenderInv(ar, snd)
    ensures U32(snd.nxt - snd.una) == InFlightCount(ar, snd) <= MAX_WND && InFlightCount(ar, snd) >= 0
  {}

  lemma AdaptsTo(k: Kcp, flight: u32, lost: bool, fast: bool)
    requires flight <= MAX_WND
    ensures var c, mss := k.cong, k.cfg.Mss();
            var c' := FlushCong(c, mss, flight, Limit(k), Now(k).resent, fast, lost);
            && (lost ==> c' == Cong(1, mss, if Limit(k) < 4 then 2 else Limit(k) / 2))
            && (!lost && fast && 0 < k.cfg.fastresend < HALF ==>
                  && c'.ssthresh == (if flight < 4 then 2 else flight / 2)
                  && c'.cwnd == c'.ssthresh + k.cfg.fastresend && c'.incr == U32(c'.cwnd * mss))
            && (!lost && !fast ==> c' == if c.cwnd == 0 then Cong(1, mss, c.ssthresh) else c)
  {
    hide Limit, FastCong, U32, k.cfg.Mss;
    if !lost && fast && 0 < k.cfg.fastresend < HALF {
      WordOf(k.cfg.fastresend);
      FastIs(k.cfg.Mss(), flight, k.cfg.fastresend);
    }
  }

  lemma WordOf(n: nat)
    requires n < WORD
    ensures U32(n) == n
  {}

  lemma FastIs(mss: int, flight: u32, resend: u32)
    requires flight <= MAX_WND && 0 < resend < HALF
    ensures var c := FastCong(mss, flight, resend);
            && c.ssthresh == (if flight < 4 then 2 else flight / 2)
            && c.cwnd == c.ssthresh + resend && c.incr == U32(c.cwnd * mss)
  {
    hide U32;
    WordOf(Max(flight / 2, THRESH_MIN) + resend);
  }

  /** What enters flight has not been sent, so only what was there can be lost or passed over. */
  lemma FreshOnes(ar: Arith, k: Kcp)
    requires SendHalf(ar, k)
    ensures Lost(k, Filled(ar, k)) == Lost(k, k.snd.buf) && Hurried(k, Filled(ar, k)) == Hurried(k, k.snd.buf)
  {
    hide SendHalf, Add, Offset, Limit;
    var buf := Filled(ar, k);
    assert forall i :: 0 <= i < |k.snd.buf| ==> buf[i] == k.snd.buf[i];
    assert forall i :: |k.snd.buf| <= i < |buf| ==> buf[i].xmit == 0;
  }

  // ----- the first flight -----

  /** A new control block with something to send. */
  function Begun(conv: u32, queue: seq<Frag>): Kcp { Create(conv).(snd := Sender(0, 0, queue, [])) }

  lemma BegunOk(ar: Arith, conv: u32, queue: seq<Frag>)
    ensures var k := Begun(conv, queue);
            SendHalf(ar, k) && k.cfg.nocwnd == 0 && k.cfg.interval == 100 && !k.clock.updated
  {}

  /** The first update sends nothing and opens the congestion window to one segment. */
  lemma FirstUpdate(ar: Arith, conv: u32, queue: seq<Frag>, t0: u32)
    ensures var k, k1 := Begun(conv, queue), Update(ar, Begun(conv, queue), t0).k;
            && k1.snd == k.snd && k1.cong.cwnd == 1 && k1.cfg == k.cfg && k1.rtt == k.rtt && SendHalf(ar, k1)
            && k1.probe.rmtWnd == k.probe.rmtWnd && k1.clock == Clock(t0, (t0 + 100) % WORD, true)
  {
    hide Flush, Update, TimeDiff, SendHalf;
    var k := Begun(conv, queue);
    BegunOk(ar, conv, queue);
    KcpTiming.NextFlush(ar, k, t0);
    var k0 := k.(clock := Clock(t0, (t0 + 100) % WORD, true));
    SameHalf(ar, k, k0.clock);
    KcpTiming.FlushClock(ar, k0);
    FlushKeeps(ar, k0);
    FlushFills(ar, k0);
    FlushAdapts(ar, k0);
    FlushFrame(ar, k0);
  }

  lemma SameHalf(ar: Arith, k: Kcp, clock: Clock)
    ensures SendHalf(ar, k.(clock := clock)) == SendHalf(ar, k)
  {}

  lemma FlushFrame(ar: Arith, k: Kcp)
    ensures Flush(ar, k).k.rtt == k.rtt && Flush(ar, k).k.probe.rmtWnd == k.probe.rmtWnd && Flush(ar, k).k.cfg == k.cfg
  {
    hide FlushSend, AckPackets, ProbePackets, TimeDiff;
  }

  lemma OneEnters(ar: Arith, k: Kcp, queue: seq<Frag>)
    requires SendHalf(ar, k) && k.snd == Sender(0, 0, queue, []) && queue != [] && Limit(k) == 1
    ensures Entering(ar, k) == 1
    ensures Filled(ar, k) == [Seg(0, queue[0], k.clock.current, k.clock.current, k.rtt.rto, 0, 0)]
  {
    hide Limit;
    FirstNumber(ar);
  }

  lemma FirstNumber(ar: Arith)
    ensures Add(ar, 0, 0) == 0 && Offset(ar, 0, 0) == 0
  {}

  lemma SentFirst(k: Kcp, seg: Seg, seg': Seg)
    requires Outcome(k, seg, seg') && seg.xmit == 0 && k.rtt.rto == 200 && k.cfg.nodelay == 0
    ensures seg' == Seg(seg.sn, seg.frag, k.clock.current, (k.clock.current + 225) % WORD, 200, seg.fastack, 1)
  {
    hide TimedOut, PassedOver, Longer;
  }

  lemma StartsWithOne(k: Kcp)
    requires k.cfg.sndWnd == 32 && k.probe.rmtWnd == 128 && k.cong.cwnd == 1 && k.cfg.nocwnd == 0
    ensures Limit(k) == 1
  {}

  lemma FlushOne(ar: Arith, k: Kcp, queue: seq<Frag>)
    requires SendHalf(ar, k) && k.snd == Sender(0, 0, queue, []) && queue != [] && Limit(k) == 1 && k.clock.updated
    requires k.rtt.rto == 200 && k.cfg.nodelay == 0
    ensures var snd, now := Flush(ar, k).k.snd, k.clock.current;
            snd.queue == queue[1..] && snd.buf == [Seg(0, queue[0], now, (now + 225) % WORD, 200, 0, 1)]
  {
    hide SendHalf, Flush, Pass, Filled, Entering, Limit, Outcome, Add;
    FlushIs(ar, k);
    OneEnters(ar, k, queue);
    PassLeaves(k, Filled(ar, k));
    SentFirst(k, Filled(ar, k)[0], Pass(k, Filled(ar, k)).buf[0]);
  }

  /** So a new endpoint starts with one piece in flight, which is due again after 200 ms and an eighth of that. */
  lemma FirstFlight(ar: Arith, conv: u32, queue: seq<Frag>, t0: u32, t1: u32)
    requires queue != [] && TimeDiff(t1, (t0 + 100) % WORD) >= 0
    ensures var snd := Update(ar, Update(ar, Begun(conv, queue), t0).k, t1).k.snd;
            snd.queue == queue[1..] && snd.buf == [Seg(0, queue[0], t1, (t1 + 225) % WORD, 200, 0, 1)]
  {
    hide Flush, Update, TimeDiff, SendHalf, Limit;
    var k1 := Update(ar, Begun(conv, queue), t0).k;
    FirstUpdate(ar, conv, queue, t0);
    KcpTiming.NextFlush(ar, k1, t1);
    var clock := Clock(t1, Update(ar, k1, t1).k.clock.tsFlush, true);
    var k := k1.(clock := clock);
    SameHalf(ar, k1, clock);
    StartsWithOne(k);
    FlushOne(ar, k, queue);
  }
}
