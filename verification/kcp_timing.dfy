/** `ikcp_check` tells the truth about `ikcp_update`. */
module KcpTiming {
  import opened SeqNum
  import opened KcpSpec

  lemma {:induction false} FirstDueBounds(buf: seq<Seg>, now: u32, default: int)
    ensures var d := FirstDue(buf, now, default);
            && d <= default
            && (forall i :: 0 <= i < |buf| ==> d <= TimeDiff(buf[i].resendts, now))
            && (d == default || exists i :: 0 <= i < |buf| && d == TimeDiff(buf[i].resendts, now))
  {
    if buf != [] {
      FirstDueBounds(buf[..|buf| - 1], now, default);
      assert forall i :: 0 <= i < |buf| - 1 ==> buf[..|buf| - 1][i] == buf[i];
    }
  }

  /** A remainder as a difference: whole turns of the number space taken away. */
  lemma Turns(n: int) returns (k: int)
    ensures n % WORD == n - k * WORD && 0 <= n - k * WORD < WORD
  {
    k := n / WORD;
  }

  /** Whole turns make no difference. */
  lemma Turned(n: int, k: int)
    ensures (n + k * WORD) % WORD == n % WORD
  {
    var a := Turns(n);
    var b := Turns(n + k * WORD);
  }

  /** Two timestamps that lie `d` apart. */
  lemma Apart(a: u32, b: u32, d: int) returns (k: int)
    requires d == TimeDiff(a, b)
    ensures d == a - b - k * WORD && -HALF <= d < HALF
  {
    k := Turns(a - b);
    if d < 0 {
      k := k + 1;
    }
  }

  lemma ApartUnique(a: u32, b: u32, k: int, d: int)
    requires d == a - b - k * WORD && -HALF <= d < HALF
    ensures TimeDiff(a, b) == d
  {
    var m := Apart(a, b, TimeDiff(a, b));
  }

  /** Counting down: `j` milliseconds later a deadline that lay `d > j` ahead lies `d - j` ahead. */
  lemma Countdown(deadline: u32, now: u32, j: nat)
    requires 0 <= j <= TimeDiff(deadline, now)
    ensures TimeDiff(deadline, U32(now + j)) == TimeDiff(deadline, now) - j
    ensures TimeDiff(U32(now + j), deadline) == j - TimeDiff(deadline, now)
  {
    hide TimeDiff;
    var d := TimeDiff(deadline, now);
    var k := Apart(deadline, now, d);
    var m := Turns(now + j);
    ApartUnique(deadline, U32(now + j), k + m, d - j);
    ApartUnique(U32(now + j), deadline, -k - m, j - d);
  }

  lemma NotDue(clock: Clock, now: u32)
    requires !FlushDue(clock, now)
    ensures clock.updated && 0 < TimeDiff(clock.tsFlush, now) <= 10000
    ensures TimeDiff(clock.tsFlush, now) == -TimeDiff(now, clock.tsFlush)
  {
    var d := TimeDiff(now, clock.tsFlush);
    var k := Apart(now, clock.tsFlush, d);
    ApartUnique(clock.tsFlush, now, -k, -d);
  }

  /** The delay that `ikcp_check` asks for. */
  function Delay(k: Kcp, now: u32): nat { (Check(k, now) - now) % WORD }

  lemma DelayOf(now: u32, d: nat)
    requires d < WORD
    ensures (U32(now + d) - now) % WORD == d
  {
    var k := Turns(now + d);
    var m := Turns(U32(now + d) - now);
  }

  lemma DelayIs(k: Kcp, now: u32)
    ensures Delay(k, now) ==
      if FlushDue(k.clock, now) then 0
      else
        var wait := FirstDue(k.snd.buf, now, TimeDiff(k.clock.tsFlush, now));
        if wait <= 0 then 0 else Min(wait, k.cfg.interval)
  {
    hide TimeDiff, FirstDue, U32;
    if !FlushDue(k.clock, now) {
      NotDue(k.clock, now);
      var default := TimeDiff(k.clock.tsFlush, now);
      FirstDueBounds(k.snd.buf, now, default);
      var wait := FirstDue(k.snd.buf, now, default);
      if wait > 0 {
        DelayOf(now, Min(wait, k.cfg.interval));
      }
    }
  }

  /** Before the time that `ikcp_check` returned, `ikcp_update` sends nothing, leaves the next flush
      where it was, and no segment is due; the delay is at most one interval. */
  lemma NothingBefore(ar: Arith, k: Kcp, now: u32, j: nat)
    requires j < Delay(k, now)
    ensures var t := U32(now + j);
            && Update(ar, k, t) == FlushResult(k.(clock := k.clock.(current := t)), [])
            && forall i :: 0 <= i < |k.snd.buf| ==> TimeDiff(k.snd.buf[i].resendts, t) > 0
    ensures Delay(k, now) <= k.cfg.interval
  {
    hide TimeDiff, FirstDue;
    DelayIs(k, now);
    NotDue(k.clock, now);
    var default := TimeDiff(k.clock.tsFlush, now);
    FirstDueBounds(k.snd.buf, now, default);
    Countdown(k.clock.tsFlush, now, j);
    forall i | 0 <= i < |k.snd.buf| ensures TimeDiff(k.snd.buf[i].resendts, U32(now + j)) > 0 {
      Countdown(k.snd.buf[i].resendts, now, j);
    }
  }

  /** And it does not ask too early: at the time returned a flush is due, or a segment is, or a whole
      interval has passed. */
  lemma SomethingAt(k: Kcp, now: u32)
    ensures var t := Check(k, now);
            || FlushDue(k.clock, t)
            || (exists i :: 0 <= i < |k.snd.buf| && TimeDiff(k.snd.buf[i].resendts, t) <= 0)
            || Delay(k, now) == k.cfg.interval
  {
    hide TimeDiff, FirstDue;
    if !FlushDue(k.clock, now) {
      DelayIs(k, now);
      NotDue(k.clock, now);
      var default := TimeDiff(k.clock.tsFlush, now);
      FirstDueBounds(k.snd.buf, now, default);
      var wait := FirstDue(k.snd.buf, now, default);
      if wait <= 0 {
        var i :| 0 <= i < |k.snd.buf| && wait == TimeDiff(k.snd.buf[i].resendts, now);
        assert TimeDiff(k.snd.buf[i].resendts, Check(k, now)) <= 0;
      } else if wait <= k.cfg.interval {
        if wait == default {
          Countdown(k.clock.tsFlush, now, wait);
        } else {
          var i :| 0 <= i < |k.snd.buf| && wait == TimeDiff(k.snd.buf[i].resendts, now);
          Countdown(k.snd.buf[i].resendts, now, wait);
          assert TimeDiff(k.snd.buf[i].resendts, U32(now + wait)) <= 0;
        }
      }
    }
  }

  // ----- when the next flush comes -----

  lemma NextIs(clock: Clock, now: u32, interval: u32)
    requires FlushDue(clock, now) && 0 < interval < 10000
    ensures var late, c := TimeDiff(now, clock.tsFlush), Tick(clock, now, interval);
            && c == Clock(now, c.tsFlush, true)
            && c.tsFlush == (if clock.updated && 0 <= late < interval then U32(clock.tsFlush + interval)
                else U32(now + interval))
            && 1 <= (c.tsFlush - now) % WORD <= interval
  {
    hide TimeDiff, U32;
    var late := TimeDiff(now, clock.tsFlush);
    var k := Apart(now, clock.tsFlush, late);
    var m := Turns(now + interval);
    WordIs(now + interval);
    ApartUnique(now, U32(now + interval), m, -(interval as int));
    DelayOf(now, interval);
    if clock.updated && 0 <= late < 10000 {
      var a := Turns(clock.tsFlush + interval);
      WordIs(clock.tsFlush + interval);
      ApartUnique(now, U32(clock.tsFlush + interval), a + k, late - interval);
      if late < interval {
        Turned(interval - late, -a - k);
        var b := Turns(interval - late);
      }
    }
  }

  lemma WordIs(n: nat)
    ensures U32(n) == n % WORD
  {}

  /** An update flushes if it is the first, or if the time for the next flush has come or lies more than ten
      seconds ahead; otherwise it only notes the time.  After a flush the next one is due one interval after
      the time for this one, if that is still to come and was kept to within an interval, and else one
      interval from now: never at once, never later. */
  lemma NextFlush(ar: Arith, k: Kcp, now: u32)
    requires 0 < k.cfg.interval < 10000
    ensures var r, clock, late := Update(ar, k, now), k.clock, TimeDiff(now, k.clock.tsFlush);
            if !clock.updated || late >= 0 || late < -10000
            then
              var next: u32 := r.k.clock.tsFlush;
              && r == Flush(ar, k.(clock := Clock(now, next, true)))
              && 1 <= (next - now) % WORD <= k.cfg.interval
              && next == ((if clock.updated && 0 <= late < k.cfg.interval then clock.tsFlush else now)
                  + k.cfg.interval) % WORD
            else r == FlushResult(k.(clock := clock.(current := now)), [])
  {
    hide TimeDiff, Flush;
    if FlushDue(k.clock, now) {
      NextIs(k.clock, now, k.cfg.interval);
      FlushClock(ar, k.(clock := Tick(k.clock, now, k.cfg.interval)));
    }
  }

  lemma FlushClock(ar: Arith, k: Kcp)
    ensures Flush(ar, k).k.clock == k.clock && Flush(ar, k).k.cfg == k.cfg
  {
    hide FlushSend, AckPackets, ProbeTimer, ProbePackets;
  }

  /** The state after updates at these times. */
  function Updates(ar: Arith, k: Kcp, times: seq<u32>): Kcp {
    if times == [] then k else Update(ar, Updates(ar, k, times[..|times| - 1]), times[|times| - 1]).k
  }

  /** An update that comes less than an interval after the time for the next flush, or up to ten seconds before. */
  predicate Punctual(k: Kcp, now: u32) { -10000 <= TimeDiff(now, k.clock.tsFlush) < k.cfg.interval }

  ghost predicate AllPunctual(ar: Arith, k: Kcp, times: seq<u32>) {
    forall i :: 0 <= i < |times| ==> Punctual(Updates(ar, k, times[..i]), times[i])
  }

  /** How many of them came at or after the time for a flush. */
  function Flushes(ar: Arith, k: Kcp, times: seq<u32>): nat {
    if times == [] then 0
    else
      var before := times[..|times| - 1];
      Flushes(ar, k, before)
      + if TimeDiff(times[|times| - 1], Updates(ar, k, before).clock.tsFlush) >= 0 then 1 else 0
  }

  /** The cadence does not drift: however the updates fall within their intervals, the n-th flush from now is
      due exactly n intervals from now. */
  lemma {:induction false} NoDrift(ar: Arith, k: Kcp, times: seq<u32>)
    requires k.clock.updated && 0 < k.cfg.interval < 10000 && AllPunctual(ar, k, times)
    ensures var k' := Updates(ar, k, times);
            && k'.clock.updated && k'.cfg == k.cfg
            && k'.clock.tsFlush == (k.clock.tsFlush + Flushes(ar, k, times) * k.cfg.interval) % WORD
  {
    hide TimeDiff, Update, Punctual, Updates, Flushes, AllPunctual;
    if times == [] {
      NoUpdates(ar, k);
    } else {
      var n := |times| - 1;
      AllBefore(ar, k, times);
      NoDrift(ar, k, times[..n]);
      OneUpdate(ar, k, times);
      OnTime(ar, Updates(ar, k, times[..n]), times[n]);
      OneMore(k.clock.tsFlush, Flushes(ar, k, times[..n]), k.cfg.interval);
    }
  }

  lemma NoUpdates(ar: Arith, k: Kcp)
    ensures Updates(ar, k, []) == k && Flushes(ar, k, []) == 0
  {}

  lemma AllBefore(ar: Arith, k: Kcp, times: seq<u32>)
    requires times != [] && AllPunctual(ar, k, times)
    ensures AllPunctual(ar, k, times[..|times| - 1])
    ensures Punctual(Updates(ar, k, times[..|times| - 1]), times[|times| - 1])
  {
    hide Punctual, Updates;
    var n := |times| - 1;
    forall i | 0 <= i < n ensures Punctual(Updates(ar, k, times[..n][..i]), times[..n][i]) {
      assert times[..n][..i] == times[..i];
    }
  }

  lemma OneUpdate(ar: Arith, k: Kcp, times: seq<u32>)
    requires times != []
    ensures var before, now := times[..|times| - 1], times[|times| - 1];
            var k1 := Updates(ar, k, before);
            && Updates(ar, k, times) == Update(ar, k1, now).k
            && Flushes(ar, k, times) == Flushes(ar, k, before) + if TimeDiff(now, k1.clock.tsFlush) >= 0 then 1 else 0
  {
    hide Update, TimeDiff;
  }

  lemma OnTime(ar: Arith, k: Kcp, now: u32)
    requires k.clock.updated && 0 < k.cfg.interval < 10000 && Punctual(k, now)
    ensures var k', due := Update(ar, k, now).k, TimeDiff(now, k.clock.tsFlush) >= 0;
            && k'.clock.updated && k'.cfg == k.cfg
            && k'.clock.tsFlush == if due then (k.clock.tsFlush + k.cfg.interval) % WORD else k.clock.tsFlush
  {
    hide TimeDiff, Update, Flush;
    NextFlush(ar, k, now);
    UpdateConfig(ar, k, now);
    FlushClock(ar, k.(clock := Clock(now, Update(ar, k, now).k.clock.tsFlush, true)));
  }

  lemma UpdateConfig(ar: Arith, k: Kcp, now: u32)
    ensures Update(ar, k, now).k.cfg == k.cfg
  {
    hide Flush, Tick, FlushDue;
    FlushClock(ar, k.(clock := Tick(k.clock, now, k.cfg.interval)));
  }

  lemma OneMore(a: nat, n: nat, d: nat)
    ensures ((a + n * d) % WORD + d) % WORD == (a + (n + 1) * d) % WORD
  {
    var m := Turns(a + n * d);
    assert (n + 1) * d == n * d + d;
    Turned(a + n * d - m * WORD + d, m);
  }
}
