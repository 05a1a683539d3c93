/** The timers of one endpoint: the retransmission timeout, the deadlines of segments in flight and the
    window probe, over every run. */
module KcpTimers {
  import opened SeqNum
  import opened Wire
  import opened KcpSpec
  import opened KcpQueues
  import KcpTiming

  // ----- the invariant -----

  /** What the timeout of a segment sent `sends` times cannot exceed: each of its timeouts at most doubles it. */
  function Ceiling(sends: nat): nat { if sends <= 1 then RTO_MAX else 2 * Ceiling(sends - 1) }

  /** The last transmission whose deadline is sure to fit the signed comparison of times. */
  const LAST: nat := 16

  lemma {:induction false} CeilingGrows(a: nat, b: nat)
    requires a <= b
    ensures Ceiling(a) <= Ceiling(b)
  {
    if a < b {
      CeilingGrows(a, b - 1);
    }
  }

  lemma CeilingDoubles(n: nat)
    requires n >= 1
    ensures Ceiling(n + 1) == 2 * Ceiling(n)
  {}

  lemma CeilingFits(sends: nat)
    requires sends <= LAST
    ensures RTO_MAX <= Ceiling(sends) <= 1966080000
  {
    CeilingGrows(sends, LAST);
    CeilingGrows(0, sends);
    CeilingIs();
  }

  /** How long after its last transmission a segment is due. */
  function Ahead(seg: Seg): nat { (seg.resendts - seg.ts) % WORD }

  /** A segment sent up to `LAST` times is due its own timeout after it was last sent, or an eighth of
      the longest timeout later at most. */
  ghost predicate SegOk(seg: Seg) {
    1 <= seg.xmit <= LAST ==>
      RTO_NDL <= seg.rto <= Ceiling(seg.xmit) && seg.rto <= Ahead(seg) <= seg.rto + RTO_MAX / 8
  }

  ghost predicate SegsOk(buf: seq<Seg>) { forall i :: 0 <= i < |buf| ==> SegOk(buf[i]) }

  /** The probe timer is off, or runs for 7 to 120 seconds. */
  predicate ProbeOk(pr: Probe) { pr.wait == 0 || PROBE_INIT <= pr.wait <= PROBE_LIMIT }

  ghost predicate TimersOk(k: Kcp) {
    && RTO_NDL <= k.cfg.minrto <= RTO_MIN && RTO_NDL <= k.rtt.rto <= RTO_MAX
    && k.cfg.fastresend < HALF && ProbeOk(k.probe) && !k.probe.ask && SegsOk(k.snd.buf)
  }

  // ----- the round-trip estimate -----

  /** The timeout after a measurement lies between the smallest one configured and a minute. */
  lemma TimeoutBounds(cfg: Config, rtt: Rtt, sample: int)
    requires cfg.minrto <= RTO_MAX
    ensures cfg.minrto <= UpdateAck(cfg, rtt, sample).rto <= RTO_MAX
  {}

  lemma PlainSigned(n: int)
    requires 0 <= n < HALF
    ensures ToI32(n) == n
  {}

  /** The weighted means of the estimator, which round down. */
  lemma Means(a: int, b: int)
    requires 0 <= a && 0 <= b
    ensures Min(a, b) <= (7 * a + b) / 8 <= Max(a, b) && Min(a, b) <= (3 * a + b) / 4 <= Max(a, b)
  {}

  function Gap(a: int, b: int): nat { if a < b then b - a else a - b }

  /** The estimator where nothing wraps. */
  lemma PlainUpdate(cfg: Config, rtt: Rtt, sample: int)
    requires ValidConfig(cfg) && 0 <= rtt.srtt < HALF / 8 && 0 <= rtt.rttval < HALF / 8 && 0 <= sample < HALF / 8
    ensures var r := UpdateAck(cfg, rtt, sample);
            && r.srtt == (if rtt.srtt == 0 then sample else Max((7 * rtt.srtt + sample) / 8, 1))
            && r.rttval == (if rtt.srtt == 0 then sample / 2 else (3 * rtt.rttval + Gap(rtt.srtt, sample)) / 4)
            && r.rto == Min(Max(cfg.minrto, r.srtt + Max(cfg.interval, 4 * r.rttval)), RTO_MAX)
  {
    hide ToI32, U32, TruncDiv;
    var gap := Gap(rtt.srtt, sample);
    var rttval, smooth := (3 * rtt.rttval + gap) / 4, (7 * rtt.srtt + sample) / 8;
    PlainSigned(3 * rtt.rttval);
    PlainSigned(7 * rtt.srtt);
    PlainSigned(rttval);
    PlainSigned(smooth);
    PlainSigned(7 * rtt.srtt + sample);
    PlainQuotient(sample, 2);
    PlainQuotient(3 * rtt.rttval + gap, 4);
    PlainQuotient(7 * rtt.srtt + sample, 8);
    var srtt, dev := if rtt.srtt == 0 then sample else Max(smooth, 1), if rtt.srtt == 0 then sample / 2 else rttval;
    PlainWord(4 * dev);
    PlainWord(srtt + Max(cfg.interval, 4 * dev));
  }

  lemma PlainQuotient(a: int, b: int)
    requires 0 <= a && 0 < b
    ensures TruncDiv(a, b) == a / b
  {}

  lemma PlainWord(n: int)
    requires 0 <= n < WORD
    ensures U32(n) == n
  {}

  /** Up to a round trip of three days no arithmetic of the estimator wraps: the estimate moves from where
      it was toward the measurement and not past it, the deviation likewise toward the distance of the
      two, and the timeout covers the estimate and one flush interval unless it is cut at a minute. */
  lemma SmoothEstimate(cfg: Config, rtt: Rtt, sample: int)
    requires ValidConfig(cfg) && 0 <= rtt.srtt < HALF / 8 && 0 <= rtt.rttval < HALF / 8 && 0 <= sample < HALF / 8
    ensures var r, gap := UpdateAck(cfg, rtt, sample), Gap(rtt.srtt, sample);
            && (rtt.srtt > 0 ==> Min(rtt.srtt, Max(sample, 1)) <= r.srtt <= Max(rtt.srtt, sample))
            && (rtt.srtt > 0 ==> Min(rtt.rttval, gap) <= r.rttval <= Max(rtt.rttval, gap))
            && (rtt.srtt > 0 ==> r.srtt == Max(rtt.srtt + (sample - rtt.srtt) / 8, 1))
            && (rtt.srtt > 0 ==> r.rttval == rtt.rttval + (gap - rtt.rttval) / 4)
            && (rtt.srtt == 0 ==> r.srtt == sample && r.rttval == sample / 2)
            && 0 <= r.srtt < HALF / 8 && 0 <= r.rttval < HALF / 8
            && r.rto == Min(Max(cfg.minrto, r.srtt + Max(cfg.interval, 4 * r.rttval)), RTO_MAX)
  {
    hide UpdateAck;
    PlainUpdate(cfg, rtt, sample);
    Means(rtt.srtt, sample);
    Means(rtt.rttval, Gap(rtt.srtt, sample));
  }

  // ----- deadlines -----

  /** A time `d` behind `now`. */
  lemma Due(now: u32, d: int)
    requires 0 <= d < WORD
    ensures (U32(now + d) - now) % WORD == d
    ensures TimeDiff(now, U32(now + d)) >= 0 <==> d == 0 || d > HALF
  {
    hide TimeDiff;
    KcpTiming.DelayOf(now, d);
    var t := U32(now + d);
    var k := KcpTiming.Turns(now + d);
    if d <= HALF {
      KcpTiming.ApartUnique(now, t, k, -d);
    } else {
      KcpTiming.ApartUnique(now, t, k - 1, WORD - d);
    }
  }

  /** Until its timeout has passed since it was last sent, a segment is not sent for a timeout, and when
      it has passed it is. */
  lemma NoTimeoutBefore(seg: Seg, e: Env, j: nat)
    requires SegOk(seg) && 1 <= seg.xmit <= LAST && e.current == U32(seg.ts + j) && j <= Ahead(seg)
    ensures FateOf(seg, e).Timeout? <==> j == Ahead(seg)
    ensures RTO_NDL <= seg.rto <= Ahead(seg)
  {
    hide TimeDiff, Ceiling;
    CeilingFits(seg.xmit);
    var d := Ahead(seg);
    var a := KcpTiming.Turns(seg.resendts - seg.ts);
    var b := KcpTiming.Turns(seg.ts + j);
    KcpTiming.ApartUnique(e.current, seg.resendts, -a - b, j - d);
  }

  /** The environments of a flush. */
  predicate EnvOk(e: Env) { RTO_NDL <= e.rto <= RTO_MAX && (e.rtomin == 0 || e.rtomin == e.rto / 8) && e.resent > 0 }

  /** What sending does to a segment that is due: one transmission more, sent now, and the next deadline
      ahead by its timeout. */
  lemma TouchedSegment(seg: Seg, e: Env)
    requires EnvOk(e) && FateOf(seg, e) != Keep
    ensures var seg', fate := Touch(seg, e), FateOf(seg, e);
            && seg' == Seg(seg.sn, seg.frag, e.current, seg'.resendts, seg'.rto,
                           if fate.Fast? then 0 else seg.fastack, Inc(seg.xmit))
            && seg'.rto == (if fate.First? then e.rto else if fate.Timeout? then Backoff(seg, e) else seg.rto)
            && Ahead(seg') == (seg'.rto + if fate.First? then e.rtomin else 0) % WORD
  {
    var seg', fate := Touch(seg, e), FateOf(seg, e);
    AheadOf(e.current, seg'.rto + if fate.First? then e.rtomin else 0);
  }

  lemma AheadOf(now: u32, d: nat)
    ensures (U32(now + d) - now) % WORD == d % WORD
  {
    var k := KcpTiming.Turns(d);
    var r := d % WORD;
    KcpTiming.DelayOf(now, r);
    KcpTiming.Turned(now + r, k);
  }

  /** Each timeout at most doubles the timeout of a segment. */
  lemma BackoffBounds(seg: Seg, e: Env)
    requires SegOk(seg) && 1 <= seg.xmit < LAST && EnvOk(e)
    ensures seg.rto <= Backoff(seg, e) <= Ceiling(seg.xmit + 1)
  {
    hide Ceiling, Ahead, Backoff;
    CeilingFits(seg.xmit);
    CeilingDoubles(seg.xmit);
    BackoffAtMost(seg, e, Ceiling(seg.xmit));
  }

  lemma BackoffAtMost(seg: Seg, e: Env, c: int)
    requires seg.rto <= c && e.rto <= c && c < HALF
    ensures seg.rto <= Backoff(seg, e) <= 2 * c
  {
    hide U32, TruncDiv, ToI32;
    if e.nodelay == 0 {
      PlainWord(seg.rto + Max(seg.rto, e.rto));
    } else {
      PlainSigned(seg.rto);
      var r := if e.nodelay < 2 then seg.rto else e.rto;
      PlainQuotient(r, 2);
      PlainWord(seg.rto + r / 2);
    }
  }

  lemma TouchOk(seg: Seg, e: Env)
    requires SegOk(seg) && EnvOk(e)
    ensures SegOk(Touch(seg, e))
  {
    hide Touch, FateOf, Backoff, Ahead;
    var seg', fate := Touch(seg, e), FateOf(seg, e);
    if fate == Keep {
      TouchKeep(seg, e);
    } else {
      TouchedSegment(seg, e);
      FirstIsNew(seg, e);
      if seg.xmit < LAST {
        CeilingFits(seg.xmit + 1);
        CeilingGrows(seg.xmit, seg.xmit + 1);
        if fate.Timeout? {
          BackoffBounds(seg, e);
        }
      }
    }
  }

  lemma TouchKeep(seg: Seg, e: Env)
    requires FateOf(seg, e) == Keep
    ensures Touch(seg, e) == seg
  {}

  lemma FirstIsNew(seg: Seg, e: Env)
    ensures FateOf(seg, e).First? <==> seg.xmit == 0
  {}

  /** A flush leaves nothing to be sent again at the same time: a segment just sent is due again at once
      exactly if it was sent for its timeout although fast acknowledgements had asked for it as well, and
      may still do so. */
  lemma SentOnce(seg: Seg, e: Env)
    requires SegOk(seg) && EnvOk(e) && seg.xmit < LAST && FateOf(seg, e) != Keep
    ensures FateOf(Touch(seg, e), e) == Keep
       <==> FateOf(seg, e).Fast? || !(seg.fastack >= e.resent && (seg.xmit + 1 <= e.fastlimit || e.fastlimit <= 0))
  {
    hide TimeDiff, Backoff, Ceiling;
    var seg' := Touch(seg, e);
    TouchedSegment(seg, e);
    TouchOk(seg, e);
    CeilingFits(seg.xmit + 1);
    assert seg'.xmit == seg.xmit + 1 && seg'.ts == e.current;
    NoTimeoutBefore(seg', e, 0);
  }

  /** Beyond that the doubling can leave the signed comparison: a segment sent for its timeout is due
      again in the same millisecond exactly if its new timeout is zero or exceeds 2^31. */
  lemma DueAtOnce(seg: Seg, e: Env)
    requires FateOf(seg, e).Timeout? && seg.xmit < WORD - 1
    ensures FateOf(Touch(seg, e), e).Timeout? <==> Backoff(seg, e) == 0 || Backoff(seg, e) > HALF
  {
    hide TimeDiff, Backoff;
    Due(e.current, Backoff(seg, e));
  }

  /** A segment after `n` more flushes, each at the time that it is due. */
  function Again(seg: Seg, e: Env, n: nat): Seg {
    if n == 0 then seg else var before := Again(seg, e, n - 1); Touch(before, e.(current := before.resendts))
  }

  lemma AgainNext(seg: Seg, e: Env, n: nat)
    ensures var before := Again(seg, e, n); Again(seg, e, n + 1) == Touch(before, e.(current := before.resendts))
  {
    hide Touch;
  }

  lemma DueNow(seg: Seg, e: Env)
    requires seg.xmit > 0 && e.current == seg.resendts
    ensures FateOf(seg, e) == Timeout
  {}

  lemma FirstSent(seg: Seg, e: Env)
    requires seg.xmit == 0
    ensures Touch(seg, e).xmit == 1 && Touch(seg, e).rto == e.rto && Ceiling(1) == RTO_MAX
  {}

  /** At the longest timeout each timeout doubles what went before. */
  lemma {:induction false} Doubles(seg: Seg, e: Env, n: nat)
    requires seg.xmit == 0 && e.nodelay == 0 && e.rto == RTO_MAX && n < LAST
    ensures var s := Again(Touch(seg, e), e, n); s.xmit == n + 1 && s.rto == Ceiling(n + 1)
  {
    if n > 0 {
      hide FateOf, TimeDiff, Touch, Backoff, Ceiling;
      Doubles(seg, e, n - 1);
      var before := Again(Touch(seg, e), e, n - 1);
      DueNow(before, e.(current := before.resendts));
      AfterTimeout(before, e.(current := before.resendts));
      CeilingDoubles(n);
      CeilingFits(n + 1);
      CeilingFits(n);
      DoubledBackoff(before, e.(current := before.resendts));
    } else {
      FirstSent(seg, e);
    }
  }

  /** The bound is tight: a segment first sent at the longest timeout, and again whenever it is due, is due
      once more in the very millisecond of its sixteenth timeout. */
  lemma SixteenthTimeout(seg: Seg, e: Env)
    requires seg.xmit == 0 && e.nodelay == 0 && e.rto == RTO_MAX
    ensures var s := Again(Touch(seg, e), e, LAST);
            s.xmit == LAST + 1 && s.ts == Again(Touch(seg, e), e, LAST - 1).resendts
              && FateOf(s, e.(current := s.ts)) == Timeout
  {
    hide TimeDiff, Ceiling, Touch, FateOf, Backoff, Again;
    AgainNext(Touch(seg, e), e, LAST - 1);
    Doubles(seg, e, LAST - 1);
    var before := Again(Touch(seg, e), e, LAST - 1);
    var now := e.(current := before.resendts);
    DueNow(before, now);
    CeilingIs();
    AfterTimeout(before, now);
    DoubledBackoff(before, now);
    DueAtOnce(before, now);
  }

  lemma AfterTimeout(seg: Seg, e: Env)
    requires FateOf(seg, e).Timeout?
    ensures Touch(seg, e).xmit == Inc(seg.xmit) && Touch(seg, e).ts == e.current && Touch(seg, e).rto == Backoff(seg, e)
  {}

  lemma DoubledBackoff(seg: Seg, e: Env)
    requires e.nodelay == 0 && e.rto <= seg.rto && 2 * seg.rto < WORD
    ensures Backoff(seg, e) == 2 * seg.rto
  {}

  lemma CeilingIs()
    ensures Ceiling(LAST) == 1966080000
  {
    assert Ceiling(4) == 480000 && Ceiling(8) == 7680000 && Ceiling(12) == 122880000 && Ceiling(16) == 1966080000;
  }

  // ----- segments in flight -----

  lemma {:induction false} MoveOk(ar: Arith, snd: Sender, wnd: nat, now: u32, rto: u32)
    requires SegsOk(snd.buf)
    ensures SegsOk(MoveToBuf(ar, snd, wnd, now, rto).buf)
    decreases |snd.queue|
  {
    if Diff(ar, snd.nxt, Add(ar, snd.una, wnd)) < 0 && snd.queue != [] {
      MoveOk(ar, snd.(queue := snd.queue[1..], nxt := Add(ar, snd.nxt, 1),
                      buf := snd.buf + [Seg(snd.nxt, snd.queue[0], now, now, rto, 0, 0)]), wnd, now, rto);
    }
  }

  lemma {:induction false} SweepOk(sw0: Sweep, t: Packet, buf: seq<Seg>, e: Env, deadLink: u32)
    requires SegsOk(sw0.buf) && SegsOk(buf) && EnvOk(e)
    ensures SegsOk(SweepAll(sw0, t, buf, e, deadLink).buf)
  {
    hide SegOk, Touch;
    if buf != [] {
      SweepOk(sw0, t, buf[..|buf| - 1], e, deadLink);
      TouchOk(buf[|buf| - 1], e);
    }
  }

  lemma {:induction false} CountOk(ar: Arith, buf: seq<Seg>, sn: nat, ts: u32)
    requires SegsOk(buf)
    ensures SegsOk(CountSkipped(ar, buf, sn, ts))
  {
    if buf != [] && Diff(ar, sn, buf[0].sn) >= 0 {
      CountOk(ar, buf[1..], sn, ts);
    }
  }

  lemma SegAckedOk(ar: Arith, k: Kcp, p: Packet)
    requires TimersOk(k)
    ensures TimersOk(InputSeg(ar, k, p))
  {
    hide UpdateAck, TakePush, SegOk, RemoveSeg, ParseUna, TimeDiff;
    var k1 := TakeUna(ar, k, p);
    var n := ParseUnaSuffix(ar, k.snd.buf, p.una);
    assert SegsOk(k1.snd.buf);
    RemoveOk(ar, k1.snd.buf, p.sn);
    TimeoutBounds(k1.cfg, k1.rtt, TimeDiff(k1.clock.current, p.ts));
  }

  lemma RemoveOk(ar: Arith, buf: seq<Seg>, sn: nat)
    requires SegsOk(buf)
    ensures SegsOk(RemoveSeg(ar, buf, sn))
  {
    hide SegOk;
    var m := RemoveSegShape(ar, buf, sn);
  }

  lemma {:induction false} InputOk(ar: Arith, k: Kcp, b: seq<byte>, prevUna: nat, newest: Newest)
    requires TimersOk(k)
    ensures TimersOk(InputBytes(ar, k, b, prevUna, newest).k)
    decreases |b|
  {
    hide InputSeg, TimersOk;
    if |b| < OVERHEAD {
      FinishOk(ar, k, prevUna, newest);
    } else {
      var h := DecodeHeader(b);
      if h.conv == k.cfg.conv && |b| - OVERHEAD >= h.len && ToI32(h.len) >= 0 && KnownCmd(h.cmd) {
        var p := PacketOf(h, b[OVERHEAD..OVERHEAD + h.len]);
        SegAckedOk(ar, k, p);
        InputOk(ar, InputSeg(ar, k, p), b[OVERHEAD + h.len..], prevUna, NewestAfter(ar, newest, p));
      }
    }
  }

  lemma FinishOk(ar: Arith, k: Kcp, prevUna: nat, newest: Newest)
    requires TimersOk(k)
    ensures TimersOk(FinishInput(ar, k, prevUna, newest))
  {
    if newest.Newest? {
      CountOk(ar, k.snd.buf, newest.sn, newest.ts);
    }
  }

  lemma FlushOk(ar: Arith, k: Kcp)
    requires TimersOk(k)
    ensures TimersOk(Flush(ar, k).k)
  {
    hide SegOk, MoveToBuf, SweepAll, FlushCong, AckPackets, ProbePackets;
    var e := EnvOf(k.cfg, k.rtt.rto, k.clock.current);
    var wnd := SendWindow(k.cfg, ProbeTimer(k.probe, k.clock.current), k.cong);
    MoveOk(ar, k.snd, wnd, e.current, e.rto);
    SweepOk(Sweep([], [], k.xmit, false, false, k.dead), Template(k), MoveToBuf(ar, k.snd, wnd, e.current, e.rto).buf,
            e, k.cfg.deadLink);
  }

  lemma StepTimers(ar: Arith, k: Kcp, op: Op)
    requires TimersOk(k)
    ensures TimersOk(Step(ar, k, op))
  {
    hide InputBytes, Flush, Send, TakeMessage, SegsOk;
    match op
    case DoInput(bytes) => InputOk(ar, k, bytes, k.snd.una, NoAck);
    case DoFlush => FlushOk(ar, k);
    case DoUpdate(now) => FlushOk(ar, k.(clock := Tick(k.clock, now, k.cfg.interval)));
    case DoRecv(len) => RecvProbe(ar, k, len);
    case _ =>
  }

  lemma RecvProbe(ar: Arith, k: Kcp, len: int)
    ensures var k' := Recv(ar, k, len).k; k' == k.(rcv := k'.rcv, probe := k.probe.(tell := k'.probe.tell))
  {}

  /** In every run from creation, whatever the network delivers and the application calls: the timeout
      lies between 30 ms and a minute, the probe timer is off or set to 7 to 120 seconds, and every
      segment in flight has its deadline. */
  lemma {:induction false} EveryRunTimers(ar: Arith, conv: u32, ops: seq<Op>)
    ensures TimersOk(Run(ar, Create(conv), ops))
  {
    hide TimersOk, Step;
    if ops == [] {
      CreateTimers(conv);
    } else {
      EveryRunTimers(ar, conv, ops[..|ops| - 1]);
      StepTimers(ar, Run(ar, Create(conv), ops[..|ops| - 1]), ops[|ops| - 1]);
    }
  }

  lemma CreateTimers(conv: u32)
    ensures TimersOk(Create(conv))
  {}

  /** A call that lifts the smallest timeout above the present one, which it leaves as it is. */
  predicate LiftsMinimum(k: Kcp, op: Op) { op.DoConfigure? && Configure(k.cfg, op.setting).minrto > k.rtt.rto }

  lemma {:induction false} InputMinimum(ar: Arith, k: Kcp, b: seq<byte>, prevUna: nat, newest: Newest)
    requires k.cfg.minrto <= k.rtt.rto && k.cfg.minrto <= RTO_MAX
    ensures var k' := InputBytes(ar, k, b, prevUna, newest).k; k'.cfg == k.cfg && k.cfg.minrto <= k'.rtt.rto
    decreases |b|
  {
    hide UpdateAck, TakePush, TakeUna, ShrinkBuf, ParseAck, TimeDiff, NewestAfter;
    if |b| >= OVERHEAD {
      var h := DecodeHeader(b);
      if h.conv == k.cfg.conv && |b| - OVERHEAD >= h.len && ToI32(h.len) >= 0 && KnownCmd(h.cmd) {
        var p := PacketOf(h, b[OVERHEAD..OVERHEAD + h.len]);
        UnaKeepsRtt(ar, k, p);
        TimeoutBounds(k.cfg, k.rtt, TimeDiff(k.clock.current, p.ts));
        InputMinimum(ar, InputSeg(ar, k, p), b[OVERHEAD + h.len..], prevUna, NewestAfter(ar, newest, p));
      }
    }
  }

  lemma UnaKeepsRtt(ar: Arith, k: Kcp, p: Packet)
    ensures var k1 := TakeUna(ar, k, p); k1.cfg == k.cfg && k1.rtt == k.rtt && k1.clock == k.clock
  {}

  lemma StepMinimum(ar: Arith, k: Kcp, op: Op)
    requires TimersOk(k) && k.cfg.minrto <= k.rtt.rto
    ensures var k' := Step(ar, k, op); k'.cfg.minrto <= k'.rtt.rto <==> !LiftsMinimum(k, op)
  {
    hide InputBytes, FlushSend, Send, TakeMessage, AckPackets, ProbePackets;
    match op
    case DoInput(bytes) => InputMinimum(ar, k, bytes, k.snd.una, NoAck);
    case DoRecv(len) => RecvProbe(ar, k, len);
    case _ =>
  }

  /** In every run the timeout is at least the smallest one configured, as long as no call lifts that
      above the timeout in use. */
  lemma {:induction false} EveryRunMinimum(ar: Arith, conv: u32, ops: seq<Op>)
    requires forall i :: 0 <= i < |ops| ==> !LiftsMinimum(Run(ar, Create(conv), ops[..i]), ops[i])
    ensures var k := Run(ar, Create(conv), ops); k.cfg.minrto <= k.rtt.rto <= RTO_MAX
  {
    hide TimersOk, Step, LiftsMinimum;
    EveryRunBounded(ar, conv, ops);
    if ops != [] {
      var n := |ops| - 1;
      forall i | 0 <= i < n ensures !LiftsMinimum(Run(ar, Create(conv), ops[..n][..i]), ops[..n][i]) {
        assert ops[..n][..i] == ops[..i];
      }
      EveryRunMinimum(ar, conv, ops[..n]);
      EveryRunTimers(ar, conv, ops[..n]);
      StepMinimum(ar, Run(ar, Create(conv), ops[..n]), ops[n]);
    }
  }

  lemma EveryRunBounded(ar: Arith, conv: u32, ops: seq<Op>)
    ensures Run(ar, Create(conv), ops).rtt.rto <= RTO_MAX
  {
    hide Run;
    EveryRunTimers(ar, conv, ops);
  }

  // ----- window probes -----

  predicate Sends(ps: seq<Packet>, cmd: byte) { exists i :: 0 <= i < |ps| && ps[i].cmd == cmd }

  predicate Only(ps: seq<Packet>, cmd: byte) { forall i :: 0 <= i < |ps| ==> ps[i].cmd == cmd }

  lemma {:induction false} AcksOnly(t: Packet, acks: seq<Ack>)
    requires t.cmd == CMD_ACK
    ensures Only(AckPackets(t, acks), CMD_ACK)
  {
    if acks != [] {
      AcksOnly(t, acks[..|acks| - 1]);
    }
  }

  lemma {:induction false} PushesOnly(sw0: Sweep, t: Packet, buf: seq<Seg>, e: Env, deadLink: u32)
    requires Only(sw0.packets, CMD_PUSH)
    ensures Only(SweepAll(sw0, t, buf, e, deadLink).packets, CMD_PUSH)
  {
    hide Touch, FateOf, Only;
    if buf != [] {
      PushesOnly(sw0, t, buf[..|buf| - 1], e, deadLink);
      OnePush(SweepAll(sw0, t, buf[..|buf| - 1], e, deadLink), t, buf[|buf| - 1], e, deadLink);
    }
  }

  lemma OnePush(sw: Sweep, t: Packet, seg: Seg, e: Env, deadLink: u32)
    requires Only(sw.packets, CMD_PUSH)
    ensures Only(SweepSeg(sw, t, seg, e, deadLink).packets, CMD_PUSH)
  {
    hide Touch, FateOf;
  }

  /** A flush asks for the peer's window exactly if that is closed and the probe timer has run out; then
      the timer is set again, half as long again up to two minutes.  The timer starts at seven seconds with
      the first flush that finds the window closed,
          and is off again with the first that finds it open.  It tells its own window exactly if a
      probe or a reopened window asked for that since the last flush. */
  lemma AsksWhenDue(ar: Arith, k: Kcp)
    requires TimersOk(k) && k.clock.updated
    ensures var r, pr, now := Flush(ar, k), k.probe, k.clock.current;
            && (Sends(r.packets, CMD_WASK) <==> pr.rmtWnd == 0 && pr.wait != 0 && TimeDiff(now, pr.ts) >= 0)
            && (Sends(r.packets, CMD_WASK) ==>
                  r.k.probe.wait == Min(pr.wait + pr.wait / 2, PROBE_LIMIT)
                    && (r.k.probe.ts - now) % WORD == r.k.probe.wait)
            && (pr.rmtWnd == 0 && pr.wait == 0 ==> r.k.probe.wait == 7000 && (r.k.probe.ts - now) % WORD == 7000)
            && (pr.rmtWnd == 0 && pr.wait != 0 && TimeDiff(now, pr.ts) < 0 ==>
                  r.k.probe.wait == pr.wait && r.k.probe.ts == pr.ts)
            && (pr.rmtWnd != 0 ==> r.k.probe.wait == 0) && r.k.probe.rmtWnd == pr.rmtWnd
            && (Sends(r.packets, CMD_WINS) <==> pr.tell) && !r.k.probe.ask && !r.k.probe.tell
  {
    hide SegsOk, TimeDiff, AckPackets, SweepAll, MoveToBuf, Sends, Only, ProbePackets, FlushCong, SendWindow;
    var t, e := Template(k), EnvOf(k.cfg, k.rtt.rto, k.clock.current);
    var pr := ProbeTimer(k.probe, k.clock.current);
    var snd1 := MoveToBuf(ar, k.snd, SendWindow(k.cfg, pr, k.cong), e.current, e.rto);
    AcksOnly(t, k.rcv.acks);
    NothingOnly(CMD_PUSH);
    PushesOnly(Sweep([], [], k.xmit, false, false, k.dead), t, snd1.buf, e, k.cfg.deadLink);
    AnnouncedBy(AckPackets(t, k.rcv.acks), t, k.rcv.acks, pr.ask, pr.tell,
                SweepAll(Sweep([], [], k.xmit, false, false, k.dead), t, snd1.buf, e, k.cfg.deadLink).packets);
    KcpTiming.DelayOf(k.clock.current, pr.wait);
    KcpTiming.DelayOf(k.clock.current, PROBE_INIT);
  }

  lemma NothingOnly(cmd: byte)
    ensures Only([], cmd)
  {}

  lemma AnnouncedBy(acks: seq<Packet>, t: Packet, list: seq<Ack>, ask: bool, tell: bool, data: seq<Packet>)
    requires Only(acks, CMD_ACK) && Only(data, CMD_PUSH)
    ensures var ps := acks + ProbePackets(t, list, ask, tell) + data;
            (Sends(ps, CMD_WASK) <==> ask) && (Sends(ps, CMD_WINS) <==> tell)
  {
    var ps, n := acks + ProbePackets(t, list, ask, tell) + data, |acks|;
    if ask {
      assert ps[n].cmd == CMD_WASK;
    }
    if tell {
      assert ps[if ask then n + 1 else n].cmd == CMD_WINS;
    }
  }
}
