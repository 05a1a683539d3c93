/** How a 32-bit endpoint reads the numbers of a packet: as the nearest numbers with the same words.  The
    system of two hosts in this reading, and what it takes for its promises to hold. */
module KcpNearest {
  import opened SeqNum
  import opened Wire
  import opened KcpSpec
  import opened KcpQueues
  import opened KcpFraming
  import opened KcpSystem

  // ----- reading -----

  /** The number with the word of `n` that is nearest to `base`; for numbers that are late it lies above. */
  function Lift(n: nat, base: int): (r: nat)
    ensures n <= r && base - HALF <= r && (n < base + HALF ==> r < base + HALF)
    ensures n >= base - HALF ==> r == n
    ensures Img(r) == Img(n)
  {
    if n >= base - HALF then n
    else
      SameWord(n, base - HALF);
      base - HALF + (n - (base - HALF)) % WORD
  }

  lemma SameWord(n: nat, low: nat)
    requires n < low
    ensures (low + (n - low) % WORD) % WORD == n % WORD && n < low + (n - low) % WORD
  {
  }

  /** A packet as the receiving endpoint takes it: acknowledgements near what is in flight, a piece near
      the end of the receive window. */
  function Read(k: Kcp, p: Packet): Packet {
    p.(una := Lift(p.una, k.snd.una),
       sn := if p.cmd == CMD_ACK then Lift(p.sn, k.snd.una)
             else if p.cmd == CMD_PUSH then Lift(p.sn, k.rcv.nxt + k.cfg.rcvWnd)
             else p.sn)
  }

  /** The highest acknowledgement so far, by the signed comparison of words. */
  function ReadNewest(newest: Newest, p: Packet): Newest {
    if p.cmd != CMD_ACK then newest
    else match newest
      case NoAck => Newest(p.sn, p.ts)
      case Newest(maxack, latest) =>
        if Diff(Wrap32, Img(p.sn), Img(maxack)) > 0 && TimeDiff(p.ts, latest) > 0 then Newest(p.sn, p.ts) else newest
  }

  function ReadSegs(k: Kcp, d: Datagram, prevUna: nat, newest: Newest): Kcp
    decreases |d|
  {
    if d == [] then FinishInput(Unbounded, k, prevUna, newest)
    else if d[0].conv != k.cfg.conv || !KnownCmd(d[0].cmd) then k
    else
      var p := Read(k, d[0]);
      ReadSegs(InputSeg(Unbounded, k, p), d[1..], prevUna, ReadNewest(newest, p))
  }

  function ReadDatagram(h: Host, d: Datagram): Host {
    h.(k := ReadSegs(h.k, d, h.k.snd.una, NoAck))
  }

  function NearNext(s: System, ev: Event): System {
    match ev
    case Local(_, _) => Next(Unbounded, s, ev)
    case Deliver(toA, i) =>
      if toA then if i < |s.b.out| then s.(a := ReadDatagram(s.a, s.b.out[i])) else s
      else if i < |s.a.out| then s.(b := ReadDatagram(s.b, s.a.out[i])) else s
  }

  function NearRun(conv: u32, evs: seq<Event>): System {
    if evs == [] then System(Started(conv), Started(conv))
    else NearNext(NearRun(conv, evs[..|evs| - 1]), evs[|evs| - 1])
  }

  // ----- mistakes -----

  /** A number read as another one that the endpoint acts on: as an acknowledgement beyond what is
      known, as one of something in flight, or as a piece inside the receive window. */
  predicate Mistaken(k: Kcp, p: Packet) {
    var q := Read(k, p);
    || (q.una != p.una && q.una > k.snd.una)
    || (p.cmd == CMD_ACK && q.sn != p.sn && InFlight(Unbounded, k.snd, q.sn))
    || (p.cmd == CMD_PUSH && q.sn != p.sn && k.rcv.nxt <= q.sn < k.rcv.nxt + k.cfg.rcvWnd)
  }

  /** No packet of the datagram is mistaken when its turn comes. */
  predicate Clear(k: Kcp, d: Datagram)
    decreases |d|
  {
    d != [] && d[0].conv == k.cfg.conv && KnownCmd(d[0].cmd) ==>
      !Mistaken(k, d[0]) && Clear(InputSeg(Unbounded, k, Read(k, d[0])), d[1..])
  }

  predicate ClearEvent(s: System, ev: Event) {
    match ev
    case Local(_, _) => true
    case Deliver(toA, i) =>
      if toA then i < |s.b.out| ==> Clear(s.a.k, s.b.out[i]) else i < |s.a.out| ==> Clear(s.b.k, s.a.out[i])
  }

  /** No delivery of the run is mistaken. */
  predicate ClearRun(conv: u32, evs: seq<Event>) {
    evs != [] ==>
      var before := evs[..|evs| - 1];
      ClearRun(conv, before) && ClearEvent(NearRun(conv, before), evs[|evs| - 1])
  }

  /** A late piece is mistaken exactly if its distance from the next expected one, as a word, falls into
      the window. */
  lemma LatePiece(k: Kcp, p: Packet)
    requires p.cmd == CMD_PUSH && p.sn < k.rcv.nxt + k.cfg.rcvWnd - HALF && k.cfg.rcvWnd < HALF
    ensures var q := Read(k, p);
            q.sn != p.sn && (k.rcv.nxt <= q.sn < k.rcv.nxt + k.cfg.rcvWnd <==> (p.sn - k.rcv.nxt) % WORD < k.cfg.rcvWnd)
  {
    var low := k.rcv.nxt + k.cfg.rcvWnd - HALF;
    LateDistance(p.sn, k.rcv.nxt, low);
  }

  /** A cumulative acknowledgement more than half the number space behind is mistaken exactly if its
      distance ahead of what is acknowledged, as a word, is less than that half. */
  lemma LateUna(k: Kcp, p: Packet)
    requires p.una < k.snd.una - HALF
    ensures var q := Read(k, p); q.una != p.una && (q.una > k.snd.una <==> 0 < (p.una - k.snd.una) % WORD < HALF)
  {
    LateDistance(p.una, k.snd.una, k.snd.una - HALF);
  }

  /** A late selective acknowledgement is mistaken exactly if its distance from what is acknowledged, as a
      word, is less than the number of pieces in flight. */
  lemma LateAck(k: Kcp, p: Packet)
    requires p.cmd == CMD_ACK && p.sn < k.snd.una - HALF && k.snd.una <= k.snd.nxt <= k.snd.una + MAX_WND
    ensures var q := Read(k, p);
            q.sn != p.sn && (InFlight(Unbounded, k.snd, q.sn) <==> (p.sn - k.snd.una) % WORD < k.snd.nxt - k.snd.una)
  {
    LateDistance(p.sn, k.snd.una, k.snd.una - HALF);
  }

  lemma LateDistance(n: nat, nxt: nat, low: nat)
    requires n < low <= nxt <= low + HALF
    ensures var r := low + (n - low) % WORD;
            r < low + WORD && n < r && (r >= nxt ==> r - nxt == (n - nxt) % WORD)
              && (r < nxt ==> r - nxt + WORD == (n - nxt) % WORD)
  {
  }

  // ----- the promises -----

  /** What is not mistaken is true where it matters. */
  lemma ReadIsSafe(h: Host, peer: Host, p: Packet)
    requires PacketOk(peer.sent, peer.k.rcv, p) && !Mistaken(h.k, p)
    ensures PacketSafe(h, peer, Read(h.k, p))
  {
    hide Lift;
  }

  lemma {:induction false} ReadStep(h: Host, peer: Host, d: Datagram, prevUna: nat, newest: Newest)
    requires HostInv(h) && Link(h, peer) && Link(peer, h) && Clear(h.k, d)
    requires forall p :: p in d ==> PacketOk(peer.sent, peer.k.rcv, p)
    ensures var h' := h.(k := ReadSegs(h.k, d, prevUna, newest));
            HostInv(h') && Link(h', peer) && Link(peer, h')
    decreases |d|
  {
    hide HostInv, Link, InputSeg, FinishInput, Read, Mistaken, PacketSafe, ReadNewest;
    if d == [] {
      FinishStep(h, peer, prevUna, newest);
    } else if d[0].conv == h.k.cfg.conv && KnownCmd(d[0].cmd) {
      var p := Read(h.k, d[0]);
      assert d[0] in d;
      ReadIsSafe(h, peer, d[0]);
      InputSegStep(h, peer, p);
      ReadStep(h.(k := InputSeg(Unbounded, h.k, p)), peer, d[1..], prevUna, ReadNewest(newest, p));
    }
  }

  lemma ReadDatagramStep(h: Host, peer: Host, i: nat)
    requires HostInv(h) && HostInv(peer) && Link(h, peer) && Link(peer, h) && i < |peer.out| && Clear(h.k, peer.out[i])
    ensures var h' := ReadDatagram(h, peer.out[i]); HostInv(h') && Link(h', peer) && Link(peer, h')
  {
    hide ReadSegs, Link, Settled, SendSide, AcksOk, Clear;
    assert peer.out[i] in peer.out;
    ReadStep(h, peer, peer.out[i], h.k.snd.una, NoAck);
  }

  lemma NearStep(s: System, ev: Event)
    requires SystemInv(s) && ClearEvent(s, ev)
    ensures SystemInv(NearNext(s, ev))
  {
    hide HostInv, Link, ReadDatagram, Next, Clear;
    match ev
    case Local(_, _) => NextStep(s, ev);
    case Deliver(toA, i) =>
      if toA {
        if i < |s.b.out| { ReadDatagramStep(s.a, s.b, i); }
      } else {
        if i < |s.a.out| { ReadDatagramStep(s.b, s.a, i); }
      }
  }

  /** The invariant holds in every run without a mistake, however late its datagrams are. */
  lemma {:induction false} NearStateOk(conv: u32, evs: seq<Event>)
    requires ClearRun(conv, evs)
    ensures SystemInv(NearRun(conv, evs))
  {
    hide SystemInv, NearNext, ClearEvent;
    if evs == [] {
      StartedOk(conv);
    } else {
      NearStateOk(conv, evs[..|evs| - 1]);
      NearStep(NearRun(conv, evs[..|evs| - 1]), evs[|evs| - 1]);
    }
  }

  // ----- runs without late deliveries -----

  /** Not yet half the number space old: `mine` and `theirs` count the pieces put into flight by the
      receiver and the sender of the packet. */
  predicate TimelyPacket(p: Packet, mine: nat, theirs: nat) {
    && mine < p.una + HALF
    && (p.cmd == CMD_ACK ==> mine < p.sn + HALF)
    && (p.cmd == CMD_PUSH ==> theirs < p.sn + HALF)
  }

  predicate TimelyDatagram(h: Host, peer: Host, d: Datagram) {
    forall p :: p in d ==> TimelyPacket(p, |h.sent|, |peer.sent|)
  }

  predicate TimelyEvent(s: System, ev: Event) {
    match ev
    case Local(_, _) => true
    case Deliver(toA, i) =>
      if toA then i < |s.b.out| ==> TimelyDatagram(s.a, s.b, s.b.out[i])
      else i < |s.a.out| ==> TimelyDatagram(s.b, s.a, s.a.out[i])
  }

  /** No delivery of the run comes half the number space late. */
  predicate TimelyRun(conv: u32, evs: seq<Event>) {
    evs != [] ==>
      var before := evs[..|evs| - 1];
      TimelyRun(conv, before) && TimelyEvent(NearRun(conv, before), evs[|evs| - 1])
  }

  /** A timely packet is not mistaken. */
  lemma TimelyIsClear(h: Host, peer: Host, p: Packet)
    requires HostInv(h) && Link(h, peer) && Link(peer, h) && TimelyPacket(p, |h.sent|, |peer.sent|)
    requires PacketOk(peer.sent, peer.k.rcv, p)
    ensures !Mistaken(h.k, p)
  {
    hide ItemsFrom, NoLoss, LogOk, Payload, ParseAll, Flatten, AcksOk, OutOk, SegsFrom;
    if p.cmd == CMD_PUSH && p.sn < h.k.rcv.nxt + h.k.cfg.rcvWnd - HALF {
      LatePiece(h.k, p);
      assert 0 < h.k.rcv.nxt - p.sn < HALF;
    }
  }

  lemma {:induction false} TimelySegs(h: Host, peer: Host, d: Datagram)
    requires HostInv(h) && Link(h, peer) && Link(peer, h) && TimelyDatagram(h, peer, d)
    requires forall p :: p in d ==> PacketOk(peer.sent, peer.k.rcv, p)
    ensures Clear(h.k, d)
    decreases |d|
  {
    hide HostInv, Link, InputSeg, Read, Mistaken, PacketOk, PacketSafe;
    if d != [] && d[0].conv == h.k.cfg.conv && KnownCmd(d[0].cmd) {
      var p := d[0];
      assert p in d;
      TimelyIsClear(h, peer, p);
      ReadIsSafe(h, peer, p);
      InputSegStep(h, peer, Read(h.k, p));
      assert forall q :: q in d[1..] ==> q in d;
      TimelySegs(h.(k := InputSeg(Unbounded, h.k, Read(h.k, p))), peer, d[1..]);
    }
  }

  lemma TimelyDelivery(h: Host, peer: Host, i: nat)
    requires HostInv(h) && HostInv(peer) && Link(h, peer) && Link(peer, h) && i < |peer.out|
             && TimelyDatagram(h, peer, peer.out[i])
    ensures Clear(h.k, peer.out[i])
  {
    hide Link, Settled, SendSide, AcksOk, Clear;
    assert peer.out[i] in peer.out;
    TimelySegs(h, peer, peer.out[i]);
  }

  lemma TimelyStep(s: System, ev: Event)
    requires SystemInv(s) && TimelyEvent(s, ev)
    ensures ClearEvent(s, ev)
  {
    hide HostInv, Link, Clear, TimelyDatagram;
    if ev.Deliver? {
      if ev.toA {
        if ev.i < |s.b.out| { TimelyDelivery(s.a, s.b, ev.i); }
      } else {
        if ev.i < |s.a.out| { TimelyDelivery(s.b, s.a, ev.i); }
      }
    }
  }

  /** Where nothing comes half the number space late, no delivery is mistaken. */
  lemma {:induction false} TimelyRunIsClear(conv: u32, evs: seq<Event>)
    requires TimelyRun(conv, evs)
    ensures ClearRun(conv, evs)
  {
    hide SystemInv, NearNext, ClearEvent, TimelyEvent;
    if evs != [] {
      var before := evs[..|evs| - 1];
      TimelyRunIsClear(conv, before);
      NearStateOk(conv, before);
      TimelyStep(NearRun(conv, before), evs[|evs| - 1]);
    }
  }

  // ----- runs without late deliveries, the receive window counted in -----

  /** A piece is also read as the very same number while it is not later than that less the receive
      window. */
  predicate FreshPacket(p: Packet, mine: nat, theirs: nat, wnd: nat) {
    && TimelyPacket(p, mine, theirs)
    && (p.cmd == CMD_PUSH ==> theirs + wnd <= p.sn + HALF)
  }

  predicate FreshDatagram(h: Host, peer: Host, d: Datagram) {
    forall p :: p in d ==> FreshPacket(p, |h.sent|, |peer.sent|, h.k.cfg.rcvWnd)
  }

  predicate FreshEvent(s: System, ev: Event) {
    match ev
    case Local(_, _) => true
    case Deliver(toA, i) =>
      if toA then i < |s.b.out| ==> FreshDatagram(s.a, s.b, s.b.out[i])
      else i < |s.a.out| ==> FreshDatagram(s.b, s.a, s.a.out[i])
  }

  /** No delivery of the run is that late. */
  predicate FreshRun(conv: u32, evs: seq<Event>) {
    evs != [] ==>
      var before := evs[..|evs| - 1];
      FreshRun(conv, before) && FreshEvent(RunAll(Unbounded, conv, before), evs[|evs| - 1])
  }

  /** A fresh packet is read as it was meant. */
  lemma FreshIsRead(h: Host, peer: Host, p: Packet)
    requires HostInv(h) && Link(h, peer) && Link(peer, h) && FreshPacket(p, |h.sent|, |peer.sent|, h.k.cfg.rcvWnd)
    ensures Read(h.k, p) == p && !Mistaken(h.k, p)
  {
    hide ItemsFrom, NoLoss, LogOk, Payload, ParseAll, Flatten, AcksOk, OutOk, SegsFrom;
  }

  lemma FreshNewest(newest: Newest, p: Packet, mine: nat)
    requires newest.Newest? ==> newest.sn <= mine < newest.sn + HALF
    requires p.cmd == CMD_ACK ==> p.sn <= mine < p.sn + HALF
    ensures ReadNewest(newest, p) == NewestAfter(Unbounded, newest, p)
  {
    if newest.Newest? && p.cmd == CMD_ACK {
      DiffRefines(p.sn, newest.sn);
    }
  }

  lemma FreshAck(h: Host, peer: Host, p: Packet)
    requires Link(h, peer) && PacketOk(peer.sent, peer.k.rcv, p) && p.cmd == CMD_ACK
    ensures p.sn <= |h.sent|
  {
    hide ParseAll, ItemsFrom;
  }

  lemma {:induction false} FreshSegs(h: Host, peer: Host, d: Datagram, prevUna: nat, newest: Newest)
    requires HostInv(h) && Link(h, peer) && Link(peer, h) && FreshDatagram(h, peer, d)
    requires forall p :: p in d ==> PacketOk(peer.sent, peer.k.rcv, p)
    requires newest.Newest? ==> newest.sn <= |h.sent| < newest.sn + HALF
    ensures Clear(h.k, d) && ReadSegs(h.k, d, prevUna, newest) == InputSegs(Unbounded, h.k, d, prevUna, newest).k
    decreases |d|
  {
    hide HostInv, Link, InputSeg, FinishInput, Read, ReadNewest, Mistaken, PacketOk;
    if d != [] && d[0].conv == h.k.cfg.conv && KnownCmd(d[0].cmd) {
      var p := d[0];
      assert p in d;
      FreshIsRead(h, peer, p);
      ReadIsSafe(h, peer, p);
      InputSegStep(h, peer, p);
      if p.cmd == CMD_ACK {
        FreshAck(h, peer, p);
      }
      FreshNewest(newest, p, |h.sent|);
      assert forall q :: q in d[1..] ==> q in d;
      FreshSegs(h.(k := InputSeg(Unbounded, h.k, p)), peer, d[1..], prevUna, NewestAfter(Unbounded, newest, p));
    }
  }

  lemma FreshDelivery(h: Host, peer: Host, i: nat)
    requires HostInv(h) && HostInv(peer) && Link(h, peer) && Link(peer, h) && i < |peer.out|
             && FreshDatagram(h, peer, peer.out[i])
    ensures Clear(h.k, peer.out[i]) && ReadDatagram(h, peer.out[i]) == Receive(Unbounded, h, peer.out[i])
  {
    hide ReadSegs, InputSegs, Link, Settled, SendSide, AcksOk, Clear;
    assert peer.out[i] in peer.out;
    FreshSegs(h, peer, peer.out[i], h.k.snd.una, NoAck);
  }

  lemma FreshStep(s: System, ev: Event)
    requires SystemInv(s) && FreshEvent(s, ev)
    ensures ClearEvent(s, ev) && NearNext(s, ev) == Next(Unbounded, s, ev)
  {
    hide HostInv, Link, ReadDatagram, Receive, Act, Clear, FreshDatagram;
    if ev.Deliver? {
      if ev.toA {
        if ev.i < |s.b.out| { FreshDelivery(s.a, s.b, ev.i); }
      } else {
        if ev.i < |s.a.out| { FreshDelivery(s.b, s.a, ev.i); }
      }
    }
  }

  /** There the nearest reading makes no difference at all. */
  lemma {:induction false} FreshRunIsClear(conv: u32, evs: seq<Event>)
    requires FreshRun(conv, evs)
    ensures ClearRun(conv, evs) && NearRun(conv, evs) == RunAll(Unbounded, conv, evs)
  {
    hide SystemInv, NearNext, Next, ClearEvent, FreshEvent;
    if evs != [] {
      var before := evs[..|evs| - 1];
      FreshRunIsClear(conv, before);
      EveryStateOk(conv, before);
      FreshStep(RunAll(Unbounded, conv, before), evs[|evs| - 1]);
    }
  }
}
