/** Congestion arithmetic: the window in segments and the window in bytes move together, and no
    32-bit product overflows while a segment fits a UDP datagram. */
module KcpCongestion {
  import opened SeqNum
  import opened Wire
  import opened KcpSpec
  import opened KcpQueues
  import opened Products

  /** The largest payload of a UDP datagram, less the segment header. */
  const MSS_MAX: int := 65507 - 24

  ghost predicate CongInv(c: Cong, mss: int) {
    THRESH_MIN <= c.ssthresh && (c.cwnd - 1) * mss < c.incr < (c.cwnd + 1) * mss
  }

  lemma Times(a: int, b: int)
    ensures (a + 1) * b == a * b + b && (a - 1) * b == a * b - b
  {}

  /** Products that the code forms. */
  lemma NoOverflow(n: int, mss: int)
    requires 0 <= n <= MAX_WND && 0 < mss <= MSS_MAX
    ensures 0 <= n * mss <= 0xffff * 65483 && U32(n * mss) == n * mss
  {
    MulMono(n, MAX_WND, mss);
    MulMonoRight(MAX_WND, mss, MSS_MAX);
    MulMono(0, n, mss);
  }

  lemma Opening(c: Cong, mss: int)
    requires CongInv(c, mss) && 0 < mss <= MSS_MAX && c.cwnd < MAX_WND && c.cwnd < c.ssthresh
    ensures CongInv(Opened(c, mss), mss) && Opened(c, mss).cwnd == c.cwnd + 1
  {
    Times(c.cwnd, mss);
    Times(c.cwnd + 1, mss);
    NoOverflow(c.cwnd + 1, mss);
  }

  lemma CreditPlain(incr: u32, mss: int)
    requires 0 < mss < incr && mss <= MSS_MAX && incr <= 0xffff * 65483
    ensures Credit(incr, mss) == incr + mss * mss / incr + mss / 16 && 0 <= mss * mss / incr < mss
  {
    SquareFits(mss);
    MulStrict(mss, incr, mss);
    QuotBelow(mss * mss, incr, mss);
  }

  /** The byte credit of one input is less than a segment and a sixteenth. */
  lemma CreditBounds(incr: u32, mss: int)
    requires 0 < mss < incr && mss <= MSS_MAX && incr <= 0xffff * 65483
    ensures incr <= Credit(incr, mss) < incr + mss + mss / 16
  {
    hide Credit;
    CreditPlain(incr, mss);
  }

  lemma MulStrict(a: int, b: int, c: int)
    requires a < b && 0 < c
    ensures a * c < b * c
  {}

  lemma SquareFits(mss: int)
    requires 0 < mss <= MSS_MAX
    ensures U32(mss * mss) == mss * mss >= 0
  {
    MulMonoRight(mss, mss, MSS_MAX);
    MulMono(mss, MSS_MAX, MSS_MAX);
    MulMono(0, mss, mss);
  }

  lemma QuotBelow(a: int, b: int, c: int)
    requires 0 < b && 0 <= a < b * c
    ensures 0 <= a / b < c
  {
    assert a == b * (a / b) + a % b;
    if a / b >= c {
      MulMonoRight(b, c, a / b);
    }
  }

  /** Rounding up: the least number of segments that holds so many bytes. */
  lemma CeilBounds(bytes: nat, mss: int)
    requires 0 < mss
    ensures var q := (bytes + mss - 1) / mss; (q - 1) * mss < bytes <= q * mss
  {
    var q := (bytes + mss - 1) / mss;
    assert bytes + mss - 1 == q * mss + (bytes + mss - 1) % mss;
    Times(q, mss);
  }

  lemma Avoiding(c: Cong, mss: int)
    requires CongInv(c, mss) && 0 < mss <= MSS_MAX && c.cwnd < MAX_WND && c.ssthresh <= c.cwnd
    ensures var o := Opened(c, mss);
            && o.ssthresh == c.ssthresh && (o.cwnd - 1) * mss < o.incr < (o.cwnd + 1) * mss && c.cwnd <= o.cwnd
  {
    hide Credit, Quot;
    Times(c.cwnd, mss);
    NoOverflow(c.cwnd, mss);
    NoOverflow(c.cwnd + 1, mss);
    MulMono(1, c.cwnd - 1, mss);
    CreditBounds(c.incr, mss);
    var incr := Credit(c.incr, mss);
    assert U32(Inc(c.cwnd) * mss) == (c.cwnd + 1) * mss;
    assert U32(incr + mss - 1) == incr + mss - 1;
    if (c.cwnd + 1) * mss <= incr {
      Reopened(c.cwnd, incr, mss);
    }
  }

  lemma Reopened(cwnd: nat, incr: u32, mss: int)
    requires 0 < mss && (cwnd + 1) * mss <= incr && incr + mss - 1 < WORD
    ensures var q := Quot(incr + mss - 1, mss); cwnd <= q && (q - 1) * mss < incr < (q + 1) * mss
  {
    CeilBounds(incr, mss);
    var q := (incr + mss - 1) / mss;
    Times(q, mss);
    Times(cwnd, mss);
    if q <= cwnd {
      MulMono(q, cwnd, mss);
    }
  }

  /** Growth keeps the two windows together and never lifts the window past the peer's. */
  lemma GrowKeeps(c: Cong, rmtWnd: u32, mss: int)
    requires CongInv(c, mss) && 0 < mss <= MSS_MAX && rmtWnd <= MAX_WND
    ensures var g := Grow(c, rmtWnd, mss);
            CongInv(g, mss) && c.cwnd <= g.cwnd <= Max(c.cwnd, rmtWnd)
  {
    if c.cwnd < rmtWnd {
      hide Opened;
      if c.cwnd < c.ssthresh { Opening(c, mss); } else { Avoiding(c, mss); }
      NoOverflow(rmtWnd, mss);
      Times(rmtWnd, mss);
    }
  }

  /** The byte window after one acknowledging input in congestion avoidance: about one segment more for a whole
      window of them, and a sixteenth of a segment. */
  function Earned(c: Cong, mss: int): int
    requires c.incr > 0
  {
    c.incr + mss * mss / c.incr + mss / 16
  }

  lemma CreditIs(c: Cong, mss: int)
    requires CongInv(c, mss) && 0 < mss <= MSS_MAX && c.ssthresh <= c.cwnd < MAX_WND
    ensures mss < c.incr && Credit(c.incr, mss) == Earned(c, mss) < WORD - mss
    ensures U32(Inc(c.cwnd) * mss) == (c.cwnd + 1) * mss
  {
    hide Credit, Quot;
    Times(c.cwnd, mss);
    NoOverflow(c.cwnd + 1, mss);
    MulMono(1, c.cwnd - 1, mss);
    CreditBounds(c.incr, mss);
    CreditPlain(c.incr, mss);
  }

  /** In congestion avoidance the byte window grows by what is earned, and the window in segments with it as
      soon as that is worth a segment more, to the least number of segments that holds it. */
  lemma AvoidingExactly(c: Cong, mss: int)
    requires CongInv(c, mss) && 0 < mss <= MSS_MAX && c.ssthresh <= c.cwnd < MAX_WND
    ensures c.incr > 0
    ensures var o, earned := Opened(c, mss), Earned(c, mss);
            && o.incr == earned >= c.incr + mss / 16 && o.ssthresh == c.ssthresh
            && (earned < (c.cwnd + 1) * mss ==> o.cwnd == c.cwnd)
            && (earned >= (c.cwnd + 1) * mss ==> (o.cwnd - 1) * mss < earned <= o.cwnd * mss)
  {
    hide Credit, Quot, Earned;
    CreditIs(c, mss);
    EarnedMore(c, mss);
    var earned := Earned(c, mss);
    CeilBounds(earned, mss);
    QuotIs(earned + mss - 1, mss);
  }

  lemma QuotIs(a: u32, b: int)
    requires b > 0
    ensures Quot(a, b) == a / b
  {}

  lemma EarnedMore(c: Cong, mss: int)
    requires 0 < mss < c.incr
    ensures Earned(c, mss) >= c.incr + mss / 16
  {
    MulMono(0, mss, mss);
    assert 0 <= mss * mss / c.incr;
  }

  /** One opening of a window smaller than the peer's: below the threshold by one segment, above it by what is
      earned, and never past the peer's. */
  ghost predicate Wider(c: Cong, c': Cong, wnd: u32, mss: int)
    requires c.ssthresh <= c.cwnd ==> c.incr > 0
  {
    && c'.ssthresh == c.ssthresh
    && if c.cwnd < c.ssthresh then c'.cwnd == c.cwnd + 1 && c'.incr == c.incr + mss
    else if Earned(c, mss) < (c.cwnd + 1) * mss then c'.cwnd == c.cwnd && c'.incr == Earned(c, mss)
    else
      && c.cwnd < c'.cwnd <= wnd
      && if Earned(c, mss) > wnd * mss then c'.cwnd == wnd && c'.incr == wnd * mss
         else c'.incr == Earned(c, mss) && (c'.cwnd - 1) * mss < c'.incr <= c'.cwnd * mss
  }

  /** An input opens the window if and only if it moves `snd_una` and the window is smaller than the peer's. */
  lemma InputOpens(ar: Arith, k: Kcp, prevUna: nat, newest: Newest)
    requires CongInv(k.cong, k.cfg.Mss()) && k.cfg.Mss() <= MSS_MAX && k.probe.rmtWnd <= MAX_WND
    ensures k.cong.ssthresh <= k.cong.cwnd ==> k.cong.incr > 0
    ensures var c' := FinishInput(ar, k, prevUna, newest).cong;
            if Diff(ar, k.snd.una, prevUna) <= 0 || k.cong.cwnd >= k.probe.rmtWnd then c' == k.cong
            else Wider(k.cong, c', k.probe.rmtWnd, k.cfg.Mss())
  {
    hide Opened, Earned, CongInv, Wider, Diff, CountSkipped;
    ByteWindow(k.cong, k.cfg.Mss());
    if k.cong.cwnd < k.probe.rmtWnd {
      if k.cong.cwnd < k.cong.ssthresh {
        StartsWider(k.cong, k.probe.rmtWnd, k.cfg.Mss());
      } else {
        AvoidsWider(k.cong, k.probe.rmtWnd, k.cfg.Mss());
      }
    }
  }

  lemma StartsWider(c: Cong, wnd: u32, mss: int)
    requires CongInv(c, mss) && 0 < mss <= MSS_MAX && c.cwnd < wnd <= MAX_WND && c.cwnd < c.ssthresh
    ensures Wider(c, Grow(c, wnd, mss), wnd, mss)
  {
    hide Opened, CongInv;
    OpeningExactly(c, mss);
  }

  lemma AvoidsWider(c: Cong, wnd: u32, mss: int)
    requires CongInv(c, mss) && 0 < mss <= MSS_MAX && c.cwnd < wnd <= MAX_WND && c.ssthresh <= c.cwnd
    ensures c.incr > 0 && Wider(c, Grow(c, wnd, mss), wnd, mss)
  {
    hide Opened, CongInv, Earned;
    AvoidingExactly(c, mss);
    NoOverflow(wnd, mss);
    LeastHolds(Opened(c, mss).cwnd, Earned(c, mss), wnd, c.cwnd, mss);
  }

  lemma ByteWindow(c: Cong, mss: int)
    requires CongInv(c, mss) && 0 < mss
    ensures c.ssthresh <= c.cwnd ==> c.incr > 0
  {
    if c.ssthresh <= c.cwnd {
      MulMono(1, c.cwnd - 1, mss);
    }
  }

  lemma OpeningExactly(c: Cong, mss: int)
    requires CongInv(c, mss) && 0 < mss <= MSS_MAX && c.cwnd < MAX_WND && c.cwnd < c.ssthresh
    ensures var o := Opened(c, mss); o.cwnd == c.cwnd + 1 && o.incr == c.incr + mss && o.ssthresh == c.ssthresh
  {
    Times(c.cwnd, mss);
    Times(c.cwnd + 1, mss);
    NoOverflow(c.cwnd + 1, mss);
  }

  /** The least number of segments for so many bytes exceeds a window exactly if the bytes do. */
  lemma LeastHolds(n: int, bytes: int, wnd: int, cwnd: int, mss: int)
    requires 0 < mss
    requires bytes >= (cwnd + 1) * mss ==> (n - 1) * mss < bytes <= n * mss
    ensures bytes >= (cwnd + 1) * mss ==> (n > wnd <==> bytes > wnd * mss) && n > cwnd
  {
    if bytes >= (cwnd + 1) * mss {
      if n <= wnd { MulMono(n, wnd, mss); } else { MulMono(wnd, n - 1, mss); }
      if n <= cwnd { MulMono(n, cwnd, mss); Times(cwnd, mss); }
    }
  }

  /** The window after fast retransmission; its product with the segment size is what can overflow. */
  function FastWindow(inflight: u32, resent: u32): u32 { U32(Max(inflight / 2, THRESH_MIN) + resent) }

  /** The adjustments at the end of a flush: after them the window is at least one segment and the
      threshold at least two; the two windows stay together unless a fast retransmission without a
      loss overflows the word, and then they never do. */
  lemma FlushCongKeeps(c: Cong, mss: int, inflight: u32, window: u32, resent: u32, change: bool, lost: bool)
    requires CongInv(c, mss) && 0 < mss < HALF
    ensures var f := FlushCong(c, mss, inflight, window, resent, change, lost);
            && f.cwnd >= 1 && f.ssthresh >= THRESH_MIN
            && (CongInv(f, mss) <==> (change && !lost ==> FastWindow(inflight, resent) * mss < WORD))
  {
    if change && !lost {
      FastTogether(FastWindow(inflight, resent), mss);
    }
    assert 0 * mss == 0 && 1 * mss == mss && 2 * mss == mss + mss;
  }

  /** A byte window that is the truncated product of segment window and segment size. */
  lemma FastTogether(cwnd: u32, mss: int)
    requires 0 < mss < HALF
    ensures (cwnd - 1) * mss < U32(cwnd * mss) < (cwnd + 1) * mss <==> cwnd * mss < WORD
  {
    Times(cwnd, mss);
    MulMono(0, cwnd, mss);
  }

  // ----- every run -----

  /** No product of a flush or an input overflows: segments fit a UDP datagram, and the window after
      fast retransmission fits the word whatever is in flight. */
  ghost predicate FitsWord(cfg: Config) {
    cfg.Mss() <= MSS_MAX && (cfg.fastresend > 0 ==> (MAX_WND / 2 + cfg.fastresend) * cfg.Mss() < WORD)
  }

  lemma FastAtMost(cfg: Config, inflight: u32, rto: u32, now: u32)
    requires inflight <= MAX_WND
    ensures FastWindow(inflight, EnvOf(cfg, rto, now).resent) <=
              MAX_WND / 2 + if cfg.fastresend > 0 then cfg.fastresend else 0
  {}

  lemma FastFits(cfg: Config, inflight: u32, rto: u32, now: u32)
    requires FitsWord(cfg) && inflight <= MAX_WND
    ensures FastWindow(inflight, EnvOf(cfg, rto, now).resent) * cfg.Mss() < WORD
  {
    hide EnvOf, FastWindow;
    FastAtMost(cfg, inflight, rto, now);
    var mss, w := cfg.Mss(), FastWindow(inflight, EnvOf(cfg, rto, now).resent);
    if cfg.fastresend > 0 {
      MulMono(w, MAX_WND / 2 + cfg.fastresend, mss);
    } else {
      NoOverflow(w, mss);
    }
  }

  /** Anything but a change of the MTU (the byte window is counted in segments of one size) or a
      fast-retransmission threshold that could overflow. */
  ghost predicate KeepsUnit(k: Kcp, op: Op) {
    op.DoConfigure? ==> var cfg := Configure(k.cfg, op.setting); cfg.mtu == k.cfg.mtu && FitsWord(cfg)
  }

  lemma InputSegCong(ar: Arith, k: Kcp, p: Packet)
    ensures InputSeg(ar, k, p).cong == k.cong
  {}

  lemma {:induction false} InputCong(ar: Arith, k: Kcp, b: seq<byte>, prevUna: nat, newest: Newest)
    requires SendHalf(ar, k) && FitsWord(k.cfg) && CongInv(k.cong, k.cfg.Mss())
    ensures CongInv(InputBytes(ar, k, b, prevUna, newest).k.cong, k.cfg.Mss())
    decreases |b|
  {
    hide CongInv, InputSeg, Grow, SendHalf, ParseFastack;
    if |b| < OVERHEAD {
      WindowKnown(ar, k);
      GrowKeeps(k.cong, k.probe.rmtWnd, k.cfg.Mss());
    } else {
      var h := DecodeHeader(b);
      if h.conv == k.cfg.conv && h.len <= |b| - OVERHEAD && KnownCmd(h.cmd) {
        var p := PacketOf(h, b[OVERHEAD..OVERHEAD + h.len]);
        InputSegKeeps(ar, k, p, 0);
        InputSegCong(ar, k, p);
        InputCong(ar, InputSeg(ar, k, p), b[OVERHEAD + h.len..], prevUna, NewestAfter(ar, newest, p));
      }
    }
  }

  lemma WindowKnown(ar: Arith, k: Kcp)
    requires SendHalf(ar, k)
    ensures k.probe.rmtWnd <= MAX_WND
  {}

  lemma FlushCongStep(ar: Arith, k: Kcp)
    requires SendHalf(ar, k) && FitsWord(k.cfg) && CongInv(k.cong, k.cfg.Mss())
    ensures CongInv(Flush(ar, k).k.cong, k.cfg.Mss())
  {
    hide CongInv, FitsWord, FlushCong, FastWindow, SweepAll, MoveToBuf, AckPackets, ProbePackets, SegsFrom;
    if k.clock.updated {
      var pr, e := ProbeTimer(k.probe, k.clock.current), EnvOf(k.cfg, k.rtt.rto, k.clock.current);
      var window := SendWindow(k.cfg, pr, k.cong);
      MoveKeeps(ar, k.snd, window, e.current, e.rto);
      var snd := MoveToBuf(ar, k.snd, window, e.current, e.rto);
      InflightOffset(ar, snd);
      var sw := SweepAll(Sweep([], [], k.xmit, false, false, k.dead), Template(k), snd.buf, e, k.cfg.deadLink);
      FastFits(k.cfg, U32(snd.nxt - snd.una), e.rto, e.current);
      FlushCongKeeps(k.cong, k.cfg.Mss(), U32(snd.nxt - snd.una), window, e.resent, sw.change, sw.lost);
    }
  }

  lemma InflightOffset(ar: Arith, snd: Sender)
    requires SenderInv(ar, snd)
    ensures U32(snd.nxt - snd.una) <= MAX_WND
  {}

  lemma StepCong(ar: Arith, k: Kcp, op: Op)
    requires SendHalf(ar, k) && FitsWord(k.cfg) && CongInv(k.cong, k.cfg.Mss()) && KeepsUnit(k, op)
    ensures var k' := Step(ar, k, op); FitsWord(k'.cfg) && CongInv(k'.cong, k.cfg.Mss()) && k'.cfg.Mss() == k.cfg.Mss()
  {
    hide CongInv, FitsWord, InputBytes, Flush, SenderInv, Drain, MergeCount, ItemBytes, Configure, Send;
    match op
    case DoSend(data) =>
    case DoRecv(len) =>
    case DoInput(bytes) =>
      InputCong(ar, k, bytes, k.snd.una, NoAck);
      StepConfig(ar, k, op);
    case DoFlush =>
      FlushCongStep(ar, k);
      StepConfig(ar, k, op);
    case DoUpdate(now) =>
      FlushCongStep(ar, k.(clock := Tick(k.clock, now, k.cfg.interval)));
      StepConfig(ar, k, op);
    case DoConfigure(s) =>
  }

  /** In every run at a fixed MTU the byte window stays within one segment of the segment window and
      the slow-start threshold is at least two. */
  lemma {:induction false} EveryRunCong(ar: Arith, k0: Kcp, ops: seq<Op>)
    requires SendHalf(ar, k0) && FitsWord(k0.cfg) && CongInv(k0.cong, k0.cfg.Mss())
    requires forall i :: 0 <= i < |ops| ==> KeepsUnit(Run(ar, k0, ops[..i]), ops[i])
    ensures var k := Run(ar, k0, ops); CongInv(k.cong, k.cfg.Mss()) && FitsWord(k.cfg) && SendHalf(ar, k)
  {
    hide CongInv, SendHalf, FitsWord, Step;
    if ops != [] {
      var n := |ops| - 1;
      forall i | 0 <= i < n ensures KeepsUnit(Run(ar, k0, ops[..n][..i]), ops[..n][i]) {
        assert ops[..n][..i] == ops[..i];
      }
      EveryRunCong(ar, k0, ops[..n]);
      StepCong(ar, Run(ar, k0, ops[..n]), ops[n]);
      StepKeeps(ar, Run(ar, k0, ops[..n]), ops[n], 0);
    }
  }

  lemma CreateCong(conv: u32)
    ensures var k := Create(conv); FitsWord(k.cfg) && CongInv(k.cong, k.cfg.Mss())
  {}

  /** So it is from creation on. */
  lemma EveryRunFromCreate(ar: Arith, conv: u32, ops: seq<Op>)
    requires forall i :: 0 <= i < |ops| ==> KeepsUnit(Run(ar, Create(conv), ops[..i]), ops[i])
    ensures var c, mss := Run(ar, Create(conv), ops).cong, MTU_DEF - OVERHEAD;
            c.ssthresh >= 2 && (c.cwnd - 1) * mss < c.incr < (c.cwnd + 1) * mss
  {
    CreateCong(conv);
    CreateOk(ar, conv);
    EveryRunCong(ar, Create(conv), ops);
    SameMss(ar, conv, ops);
  }

  lemma {:induction false} SameMss(ar: Arith, conv: u32, ops: seq<Op>)
    requires forall i :: 0 <= i < |ops| ==> KeepsUnit(Run(ar, Create(conv), ops[..i]), ops[i])
    ensures Run(ar, Create(conv), ops).cfg.mtu == MTU_DEF
  {
    hide FitsWord, Configure, Step;
    if ops != [] {
      var n := |ops| - 1;
      forall i | 0 <= i < n ensures KeepsUnit(Run(ar, Create(conv), ops[..n][..i]), ops[..n][i]) {
        assert ops[..n][..i] == ops[..i];
      }
      SameMss(ar, conv, ops[..n]);
      StepConfig(ar, Run(ar, Create(conv), ops[..n]), ops[n]);
    }
  }
}
