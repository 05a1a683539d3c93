/** What the segments of an input do to what is in flight: which acknowledgements remove it, and which count as
    skipping it. */
module KcpReplies {
  import opened SeqNum
  import opened Wire
  import opened KcpSpec
  import opened KcpQueues

  // ----- one segment -----

  /** Whether a piece in flight is one that the segment acknowledges by name. */
  predicate Named(p: Packet, seg: Seg) { p.cmd == CMD_ACK && seg.sn == p.sn }

  /** How many pieces at the front of what is in flight lie below a cumulative acknowledgement. */
  function Below(ar: Arith, buf: seq<Seg>, una: nat): (n: nat)
    ensures n <= |buf|
    ensures forall i :: 0 <= i < n ==> Diff(ar, una, buf[i].sn) > 0
    ensures n < |buf| ==> Diff(ar, una, buf[n].sn) <= 0
  {
    if buf == [] || Diff(ar, una, buf[0].sn) <= 0 then 0 else 1 + Below(ar, buf[1..], una)
  }

  function Unnamed(p: Packet, buf: seq<Seg>): seq<Seg> {
    if buf == [] then []
    else (if Named(p, buf[0]) then [] else [buf[0]]) + Unnamed(p, buf[1..])
  }

  lemma {:induction false} ParseUnaIs(ar: Arith, buf: seq<Seg>, una: nat)
    ensures ParseUna(ar, buf, una) == buf[Below(ar, buf, una)..]
  {
    if buf != [] && Diff(ar, una, buf[0].sn) > 0 {
      ParseUnaIs(ar, buf[1..], una);
    }
  }

  lemma {:induction false} UnnamedAll(p: Packet, buf: seq<Seg>)
    requires forall i :: 0 <= i < |buf| ==> !Named(p, buf[i])
    ensures Unnamed(p, buf) == buf
  {
    if buf != [] {
      UnnamedAll(p, buf[1..]);
    }
  }

  /** Numbers in flight in increasing order, seen by the signed comparison. */
  ghost predicate Ordered(ar: Arith, buf: seq<Seg>) {
    forall i, j :: 0 <= i < j < |buf| ==> Diff(ar, buf[i].sn, buf[j].sn) < 0 < Diff(ar, buf[j].sn, buf[i].sn)
  }

  /** Whether a number lies between the oldest in flight and the next to be used. */
  predicate Used(ar: Arith, snd: Sender, sn: nat) {
    0 <= Offset(ar, sn, snd.una) < Offset(ar, snd.nxt, snd.una)
  }

  lemma SenderOrdered(ar: Arith, snd: Sender)
    requires SenderInv(ar, snd)
    ensures Ordered(ar, snd.buf) && forall i :: 0 <= i < |snd.buf| ==> Used(ar, snd, snd.buf[i].sn)
  {
    hide Diff, Offset;
    forall i, j | 0 <= i < j < |snd.buf|
      ensures Diff(ar, snd.buf[i].sn, snd.buf[j].sn) < 0 < Diff(ar, snd.buf[j].sn, snd.buf[i].sn)
    {
      DiffIsOffsetDistance(ar, snd.buf[i].sn, snd.buf[j].sn, snd.una);
      DiffIsOffsetDistance(ar, snd.buf[j].sn, snd.buf[i].sn, snd.una);
    }
  }

  /** The two signed comparisons select exactly the numbers in use. */
  lemma UsedIs(ar: Arith, snd: Sender, sn: nat)
    requires SenderInv(ar, snd) && Fits(ar, sn)
    ensures InFlight(ar, snd, sn) <==> Used(ar, snd, sn)
  {
    if ar.Wrap32? {
      var d, n := Offset(ar, sn, snd.una), Offset(ar, snd.nxt, snd.una);
      assert (sn - snd.nxt) % WORD == (d - n) % WORD;
      ModUnique(d - n);
    }
  }

  lemma {:induction false} RemoveSegIs(ar: Arith, p: Packet, buf: seq<Seg>)
    requires p.cmd == CMD_ACK && Ordered(ar, buf) && forall x :: Diff(ar, x, x) == 0
    ensures RemoveSeg(ar, buf, p.sn) == Unnamed(p, buf)
  {
    hide Diff;
    if buf != [] {
      var rest := buf[1..];
      assert forall i :: 0 <= i < |rest| ==> rest[i] == buf[i + 1];
      if p.sn == buf[0].sn || Diff(ar, p.sn, buf[0].sn) < 0 {
        UnnamedAll(p, rest);
      } else {
        RemoveSegIs(ar, p, rest);
      }
    }
  }

  lemma DiffSelf(ar: Arith)
    ensures forall x :: Diff(ar, x, x) == 0
  {}

  lemma ParseAckIs(ar: Arith, snd: Sender, p: Packet)
    requires SenderInv(ar, snd) && Fits(ar, p.sn) && p.cmd == CMD_ACK
    ensures ParseAck(ar, snd, p.sn) == snd.(buf := Unnamed(p, snd.buf))
  {
    hide Diff, Offset, SenderInv, RemoveSeg, InFlight, Used;
    SenderOrdered(ar, snd);
    UsedIs(ar, snd, p.sn);
    DiffSelf(ar);
    RemoveSegIs(ar, p, snd.buf);
    if !InFlight(ar, snd, p.sn) {
      UnnamedAll(p, snd.buf);
    }
  }

  function AfterUna(ar: Arith, snd: Sender,
                    una: nat): Sender { ShrinkBuf(snd.(buf := snd.buf[Below(ar, snd.buf, una)..])) }

  /** A segment takes out of flight exactly what lies below its cumulative acknowledgement and, if it is an
      acknowledgement, the piece that it names; what remains is as it was and in order, and `una` is the
      oldest of it. */
  lemma AckedExactly(ar: Arith, k: Kcp, p: Packet)
    requires SenderInv(ar, k.snd) && Fits(ar, p.sn)
    ensures var snd, snd' := k.snd, InputSeg(ar, k, p).snd;
            && snd'.buf == Unnamed(p, snd.buf[Below(ar, snd.buf, p.una)..])
            && snd'.queue == snd.queue && snd'.nxt == snd.nxt
            && snd'.una == if snd'.buf == [] then snd'.nxt else snd'.buf[0].sn
  {
    hide SenderInv, TakePush, UpdateAck, ParseAck, ParseUna, Below;
    ParseUnaIs(ar, k.snd.buf, p.una);
    TakeUnaKeeps(ar, k.snd, p.una);
    if p.cmd == CMD_ACK {
      ParseAckIs(ar, AfterUna(ar, k.snd, p.una), p);
    } else {
      UnnamedAll(p, k.snd.buf[Below(ar, k.snd.buf, p.una)..]);
    }
  }

  /** The pieces at the front that lie below are all that do, unless the acknowledgement lies half the number
      space behind, give or take a window. */
  lemma BelowExactly(ar: Arith, snd: Sender, una: nat)
    requires SenderInv(ar, snd) && Fits(ar, una) && Diff(ar, una, snd.una) >= MAX_WND - HALF
    ensures forall i :: 0 <= i < |snd.buf| ==> (i < Below(ar, snd.buf, una) <==> Diff(ar, una, snd.buf[i].sn) > 0)
  {
    hide Below, Diff, Offset;
    var n := Below(ar, snd.buf, una);
    forall i | 0 <= i < |snd.buf|
      ensures Diff(ar, una, snd.buf[i].sn) == Diff(ar, una, snd.una) - Offset(ar, snd.buf[i].sn, snd.una) {
      DiffFrom(ar, una, snd.buf[i].sn, snd.una);
    }
  }

  lemma DiffFrom(ar: Arith, a: nat, b: nat, base: nat)
    requires 0 <= Offset(ar, b, base) <= MAX_WND && Diff(ar, a, base) >= MAX_WND - HALF
    ensures Diff(ar, a, b) == Diff(ar, a, base) - Offset(ar, b, base)
  {
    if ar.Wrap32? {
      ModShift(a - base, b - base);
      assert (a - base) - (b - base) == a - b;
      var d := Offset(ar, a, base) - Offset(ar, b, base);
      ModUnique(d);
    }
  }

  // ----- a whole input -----

  lemma {:induction false} UnnamedMembers(p: Packet, buf: seq<Seg>)
    ensures forall seg :: seg in Unnamed(p, buf) <==> seg in buf && !Named(p, seg)
  {
    if buf != [] {
      UnnamedMembers(p, buf[1..]);
      assert buf == [buf[0]] + buf[1..];
    }
  }

  /** A number no longer in flight. */
  ghost predicate Gone(snd: Sender, sn: nat) { forall seg :: seg in snd.buf ==> seg.sn != sn }

  lemma SegGone(ar: Arith, k: Kcp, p: Packet, sn: nat)
    requires SenderInv(ar, k.snd) && Fits(ar, p.sn)
    ensures Gone(k.snd, sn) ==> Gone(InputSeg(ar, k, p).snd, sn)
    ensures p.cmd == CMD_ACK ==> Gone(InputSeg(ar, k, p).snd, p.sn)
  {
    hide InputSeg, SenderInv;
    AckedExactly(ar, k, p);
    UnnamedMembers(p, k.snd.buf[Below(ar, k.snd.buf, p.una)..]);
  }

  lemma FinishGone(ar: Arith, k: Kcp, prevUna: nat, newest: Newest, sn: nat)
    requires Gone(k.snd, sn)
    ensures Gone(FinishInput(ar, k, prevUna, newest).snd, sn)
  {
    if newest.Newest? {
      CountSkippedSame(ar, k.snd.buf, newest.sn, newest.ts);
    }
  }

  /** What an input acknowledges by name is no longer in flight after it. */
  lemma {:induction false} AckedByInput(ar: Arith, k: Kcp, d: Datagram, prevUna: nat, newest: Newest, sn: nat)
    requires SendHalf(ar, k) && forall p :: p in d ==> Fits(ar, p.sn) && p.conv == k.cfg.conv && KnownCmd(p.cmd)
    requires Gone(k.snd, sn) || exists p :: p in d && p.cmd == CMD_ACK && p.sn == sn
    ensures Gone(InputSegs(ar, k, d, prevUna, newest).k.snd, sn)
    decreases |d|
  {
    hide InputSeg, FinishInput, SendHalf, Gone, KnownCmd;
    if d == [] {
      FinishGone(ar, k, prevUna, newest, sn);
    } else {
      SendHalfSender(ar, k);
      InputSegKeeps(ar, k, d[0], 0);
      SegGone(ar, k, d[0], sn);
      assert forall p :: p in d ==> p == d[0] || p in d[1..];
      AckedByInput(ar, InputSeg(ar, k, d[0]), d[1..], prevUna, NewestAfter(ar, newest, d[0]), sn);
    }
  }

  lemma SendHalfSender(ar: Arith, k: Kcp)
    requires SendHalf(ar, k)
    ensures SenderInv(ar, k.snd)
  {}

  /** A piece still in flight, with its bytes. */
  ghost predicate Remains(snd: Sender, sn: nat, frag: Frag) {
    exists i :: 0 <= i < |snd.buf| && snd.buf[i].sn == sn && snd.buf[i].frag == frag
  }

  /** And what it does not acknowledge stays. */
  lemma {:induction false} KeptByInput(ar: Arith, k: Kcp, d: Datagram, prevUna: nat, newest: Newest, sn: nat,
                                       frag: Frag)
    requires SendHalf(ar, k) && Remains(k.snd, sn, frag) && forall p :: p in d ==> Fits(ar, p.sn)
    requires forall p :: p in d ==> Diff(ar, p.una, sn) <= 0 && (p.cmd == CMD_ACK ==> p.sn != sn)
    ensures Remains(InputSegs(ar, k, d, prevUna, newest).k.snd, sn, frag)
    decreases |d|
  {
    hide InputSeg, FinishInput, SendHalf, Remains, KnownCmd, Diff;
    if d == [] {
      FinishStays(ar, k, prevUna, newest, sn, frag);
    } else if d[0].conv == k.cfg.conv && KnownCmd(d[0].cmd) {
      SendHalfSender(ar, k);
      InputSegKeeps(ar, k, d[0], 0);
      SegStays(ar, k, d[0], sn, frag);
      assert forall p :: p in d[1..] ==> p in d;
      KeptByInput(ar, InputSeg(ar, k, d[0]), d[1..], prevUna, NewestAfter(ar, newest, d[0]), sn, frag);
    }
  }

  lemma FinishStays(ar: Arith, k: Kcp, prevUna: nat, newest: Newest, sn: nat, frag: Frag)
    requires Remains(k.snd, sn, frag)
    ensures Remains(FinishInput(ar, k, prevUna, newest).snd, sn, frag)
  {
    var i :| 0 <= i < |k.snd.buf| && k.snd.buf[i].sn == sn && k.snd.buf[i].frag == frag;
    if newest.Newest? {
      CountSkippedSame(ar, k.snd.buf, newest.sn, newest.ts);
      assert FinishInput(ar, k, prevUna, newest).snd.buf[i].sn == sn;
    }
  }

  lemma SegStays(ar: Arith, k: Kcp, p: Packet, sn: nat, frag: Frag)
    requires SenderInv(ar, k.snd) && Fits(ar, p.sn) && Remains(k.snd, sn, frag)
    requires Diff(ar, p.una, sn) <= 0 && (p.cmd == CMD_ACK ==> p.sn != sn)
    ensures Remains(InputSeg(ar, k, p).snd, sn, frag)
  {
    hide InputSeg, SenderInv, Diff, Below, Unnamed;
    AckedExactly(ar, k, p);
    var i :| 0 <= i < |k.snd.buf| && k.snd.buf[i].sn == sn && k.snd.buf[i].frag == frag;
    var n := Below(ar, k.snd.buf, p.una);
    assert n <= i && k.snd.buf[n..][i - n] == k.snd.buf[i];
    UnnamedMembers(p, k.snd.buf[n..]);
    assert k.snd.buf[i] in InputSeg(ar, k, p).snd.buf;
  }

  // ----- what an acknowledgement skips -----

  /** At the end of an input that acknowledged something, each older piece in flight that was not sent after
      the acknowledged one is counted as skipped once, and no other. */
  lemma SkippedExactly(ar: Arith, k: Kcp, prevUna: nat, newest: Newest)
    requires SenderInv(ar, k.snd) && (newest.Newest? ==> Fits(ar, newest.sn))
    ensures var snd, snd' := k.snd, FinishInput(ar, k, prevUna, newest).snd;
            && |snd'.buf| == |snd.buf| && snd' == snd.(buf := snd'.buf)
            && forall i :: 0 <= i < |snd.buf| ==>
                 var seg := snd.buf[i];
                 var skipped := newest.Newest? && Used(ar, snd, newest.sn)
                                && Offset(ar, seg.sn, snd.una) < Offset(ar, newest.sn, snd.una)
                                && TimeDiff(newest.ts, seg.ts) >= 0;
                 snd'.buf[i] == if skipped then seg.(fastack := (seg.fastack + 1) % WORD) else seg
  {
    hide Diff, Offset, TimeDiff, CountSkipped, InFlight;
    if newest.Newest? {
      UsedIs(ar, k.snd, newest.sn);
      if InFlight(ar, k.snd, newest.sn) {
        SenderOrdered(ar, k.snd);
        forall i | 0 <= i < |k.snd.buf|
          ensures Diff(ar, newest.sn, k.snd.buf[i].sn) ==
                    Offset(ar, newest.sn, k.snd.una) - Offset(ar, k.snd.buf[i].sn, k.snd.una)
          ensures k.snd.buf[i].sn == newest.sn <==> Diff(ar, newest.sn, k.snd.buf[i].sn) == 0
        {
          DiffIsOffsetDistance(ar, newest.sn, k.snd.buf[i].sn, k.snd.una);
          if Diff(ar, newest.sn, k.snd.buf[i].sn) == 0 {
            OffsetInjective(ar, newest.sn, k.snd.buf[i].sn, k.snd.una);
          }
          DiffSelf(ar);
        }
        CountsOlder(ar, k.snd.buf, newest.sn, newest.ts);
      }
    }
  }

  lemma {:induction false} CountsOlder(ar: Arith, buf: seq<Seg>, sn: nat, ts: u32)
    requires forall i, j :: 0 <= i < j < |buf| ==> Diff(ar, sn, buf[j].sn) < Diff(ar, sn, buf[i].sn)
    requires forall i :: 0 <= i < |buf| ==> (buf[i].sn == sn <==> Diff(ar, sn, buf[i].sn) == 0)
    ensures |CountSkipped(ar, buf, sn, ts)| == |buf|
    ensures forall i :: 0 <= i < |buf| ==>
              CountSkipped(ar, buf, sn, ts)[i] ==
                if Diff(ar, sn, buf[i].sn) > 0 && TimeDiff(ts, buf[i].ts) >= 0
                then buf[i].(fastack := (buf[i].fastack + 1) % WORD) else buf[i]
  {
    hide Diff, TimeDiff;
    if buf != [] && Diff(ar, sn, buf[0].sn) >= 0 {
      CountsOlder(ar, buf[1..], sn, ts);
    }
  }

  // ----- the rest of a segment -----

  /** Whatever its command a segment tells the peer's window; an acknowledgement of something sent no later than
      now measures a round trip; a probe asks this side to tell its window; nothing else changes but the pieces
      received and in flight. */
  lemma SegmentTells(ar: Arith, k: Kcp, p: Packet)
    ensures var k', age := InputSeg(ar, k, p), TimeDiff(k.clock.current, p.ts);
            && k' == k.(snd := k'.snd, rcv := k'.rcv, rtt := k'.rtt, probe := k'.probe)
            && k'.probe == k.probe.(rmtWnd := p.wnd, tell := k.probe.tell || p.cmd == CMD_WASK)
            && k'.rtt == (if p.cmd == CMD_ACK && age >= 0 then UpdateAck(k.cfg, k.rtt, age) else k.rtt)
            && (p.cmd != CMD_PUSH ==> k'.rcv == k.rcv)
  {
    hide TimeDiff, UpdateAck, TakePush, ParseAck, ParseUna;
  }

  /** The acknowledgement that the count of skipped pieces goes by, after the segments of an input. */
  function NewestOf(ar: Arith, newest: Newest, d: Datagram): Newest
    decreases |d|
  {
    if d == [] then newest else NewestOf(ar, NewestAfter(ar, newest, d[0]), d[1..])
  }

  /** Numbers and times less than half their space ahead of some base. */
  predicate Near(ar: Arith, sn: nat, ts: u32, base: nat, start: u32) {
    0 <= Offset(ar, sn, base) < HALF && 0 <= Offset(Wrap32, ts, start) < HALF
  }

  /** Later both by number and by time. */
  predicate Newer(ar: Arith, sn: nat, ts: u32, n: Newest, base: nat, start: u32) {
    && n.Newest? && Offset(ar, sn, base) > Offset(ar, n.sn, base)
    && Offset(Wrap32, ts, start) > Offset(Wrap32, n.ts, start)
  }

  /** It is one of those received, and none received is newer. */
  lemma {:induction false} NewestIsNewest(ar: Arith, newest: Newest, d: Datagram, base: nat, start: u32)
    requires newest.Newest? ==> Near(ar, newest.sn, newest.ts, base, start)
    requires forall p :: p in d && p.cmd == CMD_ACK ==> Near(ar, p.sn, p.ts, base, start)
    ensures var n := NewestOf(ar, newest, d);
            && (n.NoAck? <==> newest.NoAck? && forall p :: p in d ==> p.cmd != CMD_ACK)
            && (n.Newest? ==> n == newest || exists p :: p in d && p.cmd == CMD_ACK && p.sn == n.sn && p.ts == n.ts)
            && (newest.Newest? ==> n.Newest? && Offset(ar, newest.sn, base) <= Offset(ar, n.sn, base)
                                   && Offset(Wrap32, newest.ts, start) <= Offset(Wrap32, n.ts, start))
            && forall p :: p in d && p.cmd == CMD_ACK ==> !Newer(ar, p.sn, p.ts, n, base, start)
    decreases |d|
  {
    hide Offset, Diff, TimeDiff;
    if d != [] {
      var p, rest := d[0], d[1..];
      assert forall q :: q in d <==> q in rest || q == p;
      if p.cmd == CMD_ACK && newest.Newest? {
        DiffIsOffsetDistance(ar, p.sn, newest.sn, base);
        DiffIsOffsetDistance(Wrap32, p.ts, newest.ts, start);
        TimesAreWords(p.ts, newest.ts);
      }
      NewestIsNewest(ar, NewestAfter(ar, newest, p), rest, base, start);
    }
  }

  lemma TimesAreWords(a: u32, b: u32)
    ensures TimeDiff(a, b) == Diff(Wrap32, a, b)
  {}
}
