/** The protocol state of one endpoint as a value, and what each operation does to it.

    `KcpEndpoint` proves the in-place, looping operations equal to these functions in the
    `Wrap32` reading; the other modules prove what the functions guarantee. */
module KcpSpec {
  import opened SeqNum
  import opened Wire

  const RTO_NDL := 30
  const RTO_MIN := 100
  const RTO_DEF := 200
  const RTO_MAX := 60000
  const WND_SND := 32
  const WND_RCV: nat := 128
  const MTU_DEF := 1400
  const INTERVAL := 100
  const DEADLINK := 20
  const THRESH_INIT := 2
  const THRESH_MIN := 2
  const PROBE_INIT := 7000
  const PROBE_LIMIT := 120000
  const FASTACK_LIMIT := 5

  type Mtu = x: int | 50 <= x < HALF witness 1400

  // ----- state -----

  /** A queued piece of a message; `frg` counts the pieces still to come. */
  datatype Frag = Frag(frg: nat, data: seq<byte>)

  /** A received piece. */
  datatype Item = Item(sn: nat, frag: Frag)

  /** A sent, unacknowledged piece with its retransmission state. */
  datatype Seg = Seg(sn: nat, frag: Frag, ts: u32, resendts: u32, rto: u32, fastack: u32, xmit: u32)

  datatype Ack = Ack(sn: nat, ts: u32)

  /** Written only by the configuration functions. */
  datatype Config = Config(conv: u32, mtu: Mtu, sndWnd: u32, rcvWnd: u32, interval: u32, nodelay: u32,
                           minrto: u32, fastresend: int, fastlimit: int, nocwnd: int, stream: int,
                           deadLink: u32)
  {
    function Mss(): (m: int)
      ensures 26 <= m < HALF
    {
      mtu - OVERHEAD
    }
  }

  datatype Sender = Sender(una: nat, nxt: nat, queue: seq<Frag>, buf: seq<Seg>)
  datatype Receiver = Receiver(nxt: nat, queue: seq<Item>, buf: seq<Item>, acks: seq<Ack>)
  datatype Probe = Probe(rmtWnd: u32, ask: bool, tell: bool, ts: u32, wait: u32)
  datatype Cong = Cong(cwnd: u32, incr: u32, ssthresh: u32)
  datatype Rtt = Rtt(srtt: int, rttval: int, rto: u32)
  datatype Clock = Clock(current: u32, tsFlush: u32, updated: bool)

  datatype Kcp = Kcp(cfg: Config, snd: Sender, rcv: Receiver, probe: Probe, cong: Cong, rtt: Rtt,
                     clock: Clock, dead: bool, xmit: u32)

  function U32(n: int): u32 { n % WORD }

  function Min(a: int, b: int): int { if a <= b then a else b }

  function Max(a: int, b: int): int { if a >= b then a else b }

  /** Division of C, which truncates toward zero; the divisors used are positive. */
  function TruncDiv(a: int, b: int): int
    requires b > 0
  {
    if a >= 0 then a / b else -((-a) / b)
  }

  /** `ikcp_create`. */
  function Create(conv: u32): Kcp {
    Kcp(Config(conv, MTU_DEF, WND_SND, WND_RCV, INTERVAL, 0, RTO_MIN, 0, FASTACK_LIMIT, 0, 0, DEADLINK),
        Sender(0, 0, [], []), Receiver(0, [], [], []), Probe(WND_RCV, false, false, 0, 0),
        Cong(0, 0, THRESH_INIT), Rtt(0, 0, RTO_DEF), Clock(0, INTERVAL, false), false, 0)
  }

  // ----- ikcp_send -----

  function FragCount(len: nat, mss: nat): nat
    requires mss > 0
  {
    if len <= mss then 1 else (len + mss - 1) / mss
  }

  /** `count` pieces of at most `mss` bytes; outside stream mode they are numbered downward. */
  function Cut(mss: nat, data: seq<byte>, count: nat, stream: bool): seq<Frag>
    decreases count
  {
    if count == 0 then []
    else
      var size := Min(|data|, mss);
      [Frag(if stream then 0 else count - 1, data[..size])] + Cut(mss, data[size..], count - 1, stream)
  }

  /** How many bytes stream mode can append to the last queued piece. */
  function StreamRoom(cfg: Config, queue: seq<Frag>, len: nat): nat {
    if cfg.stream != 0 && queue != [] && |queue[|queue| - 1].data| < cfg.Mss()
    then Min(len, cfg.Mss() - |queue[|queue| - 1].data|)
    else 0
  }

  /** The queue after that append.  The extended piece loses its fragment number even when no
      byte is appended. */
  function StreamExtend(cfg: Config, queue: seq<Frag>, data: seq<byte>): seq<Frag> {
    if cfg.stream != 0 && queue != [] && |queue[|queue| - 1].data| < cfg.Mss()
    then
      var room := StreamRoom(cfg, queue, |data|);
      queue[..|queue| - 1] + [Frag(0, queue[|queue| - 1].data + data[..room])]
    else queue
  }

  datatype SendResult = SendResult(queue: seq<Frag>, ret: int)

  function Send(cfg: Config, queue: seq<Frag>, data: seq<byte>): SendResult {
    var sent := StreamRoom(cfg, queue, |data|);
    var queue1 := StreamExtend(cfg, queue, data);
    if cfg.stream != 0 && |data| - sent <= 0 then SendResult(queue1, sent)
    else
      var count := FragCount(|data| - sent, cfg.Mss());
      if count >= WND_RCV then
        SendResult(queue1, if cfg.stream != 0 && sent > 0 then sent else -2)
      else
        SendResult(queue1 + Cut(cfg.Mss(), data[sent..], count, cfg.stream != 0), |data|)
  }

  // ----- ikcp_peeksize, ikcp_recv -----

  /** How many items the merge loop visits: up to and including the first with `frg == 0`. */
  function MergeCount(queue: seq<Item>): (n: nat)
    ensures n <= |queue|
    ensures queue != [] ==> n > 0
  {
    if queue == [] then 0
    else if queue[0].frag.frg == 0 then 1
    else 1 + MergeCount(queue[1..])
  }

  function ItemBytes(items: seq<Item>): seq<byte> {
    if items == [] then [] else ItemBytes(items[..|items| - 1]) + items[|items| - 1].frag.data
  }

  function PeekSize(queue: seq<Item>): int {
    if queue == [] then -1
    else if queue[0].frag.frg == 0 then |queue[0].frag.data|
    else if |queue| < queue[0].frag.frg + 1 then -1
    else |ItemBytes(queue[..MergeCount(queue)])|
  }

  /** Move what has become contiguous from the reorder buffer to the receive queue. */
  function Drain(ar: Arith, rcv: Receiver, wnd: nat): Receiver
    decreases |rcv.buf|
  {
    if rcv.buf != [] && rcv.buf[0].sn == rcv.nxt && |rcv.queue| < wnd
    then Drain(ar, rcv.(buf := rcv.buf[1..], queue := rcv.queue + [rcv.buf[0]], nxt := Add(ar, rcv.nxt, 1)), wnd)
    else rcv
  }

  datatype RecvResult = RecvResult(k: Kcp, ret: int, data: seq<byte>)

  /** The second half of `ikcp_recv`: hand out the message at the front, refill the queue, and
      announce the window if that reopened it.  Peeking leaves the message where it is. */
  function TakeMessage(ar: Arith, k: Kcp, peek: bool): RecvResult {
    var queue := k.rcv.queue;
    var n := MergeCount(queue);
    var data := ItemBytes(queue[..n]);
    var rcv := Drain(ar, if peek then k.rcv else k.rcv.(queue := queue[n..]), k.cfg.rcvWnd);
    var tell := |queue| >= k.cfg.rcvWnd && |rcv.queue| < k.cfg.rcvWnd;
    RecvResult(k.(rcv := rcv, probe := k.probe.(tell := k.probe.tell || tell)), |data|, data)
  }

  /** `len < 0` peeks. */
  function Recv(ar: Arith, k: Kcp, len: int): RecvResult {
    if k.rcv.queue == [] then RecvResult(k, -1, [])
    else if PeekSize(k.rcv.queue) < 0 then RecvResult(k, -2, [])
    else if PeekSize(k.rcv.queue) > (if len < 0 then -len else len) then RecvResult(k, -3, [])
    else TakeMessage(ar, k, len < 0)
  }

  // ----- ikcp_input: the sender's side -----

  /** `ikcp_parse_una`: everything below `una` is acknowledged. */
  function ParseUna(ar: Arith, buf: seq<Seg>, una: nat): seq<Seg> {
    if buf != [] && Diff(ar, una, buf[0].sn) > 0 then ParseUna(ar, buf[1..], una) else buf
  }

  /** `ikcp_shrink_buf`. */
  function ShrinkBuf(snd: Sender): Sender {
    snd.(una := if snd.buf != [] then snd.buf[0].sn else snd.nxt)
  }

  /** Whether an acknowledged number names something in flight. */
  predicate InFlight(ar: Arith, snd: Sender, sn: nat) {
    Diff(ar, sn, snd.una) >= 0 && Diff(ar, sn, snd.nxt) < 0
  }

  function RemoveSeg(ar: Arith, buf: seq<Seg>, sn: nat): seq<Seg> {
    if buf == [] then []
    else if sn == buf[0].sn then buf[1..]
    else if Diff(ar, sn, buf[0].sn) < 0 then buf
    else [buf[0]] + RemoveSeg(ar, buf[1..], sn)
  }

  /** `ikcp_parse_ack`. */
  function ParseAck(ar: Arith, snd: Sender, sn: nat): Sender {
    if InFlight(ar, snd, sn) then snd.(buf := RemoveSeg(ar, snd.buf, sn)) else snd
  }

  function Skipped(ar: Arith, seg: Seg, sn: nat, ts: u32): Seg {
    if sn != seg.sn && TimeDiff(ts, seg.ts) >= 0 then seg.(fastack := Inc(seg.fastack)) else seg
  }

  function CountSkipped(ar: Arith, buf: seq<Seg>, sn: nat, ts: u32): seq<Seg> {
    if buf == [] || Diff(ar, sn, buf[0].sn) < 0 then buf
    else [Skipped(ar, buf[0], sn, ts)] + CountSkipped(ar, buf[1..], sn, ts)
  }

  lemma CountStart(ar: Arith, all: seq<Seg>, sn: nat, ts: u32)
    ensures CountSkipped(ar, all, sn, ts) == [] + CountSkipped(ar, all[0..], sn, ts)
  {
    assert all[0..] == all;
  }

  lemma CountEnd(ar: Arith, buf: seq<Seg>, sn: nat, ts: u32)
    ensures buf == [] || Diff(ar, sn, buf[0].sn) < 0 ==> CountSkipped(ar, buf, sn, ts) == buf
  {
  }

  /** The counters of a buffer, one segment further. */
  lemma CountNext(ar: Arith, all: seq<Seg>, done: seq<Seg>, i: nat, sn: nat, ts: u32)
    requires i < |all| && Diff(ar, sn, all[i].sn) >= 0
    requires CountSkipped(ar, all, sn, ts) == done + CountSkipped(ar, all[i..], sn, ts)
    ensures CountSkipped(ar, all, sn, ts) == (done + [Skipped(ar, all[i], sn, ts)])
              + CountSkipped(ar, all[i + 1..], sn, ts)
  {
    Seqs.SplitAt(all, i);
    Seqs.Assoc(done, [Skipped(ar, all[i], sn, ts)], CountSkipped(ar, all[i + 1..], sn, ts));
  }

  /** `ikcp_parse_fastack`. */
  function ParseFastack(ar: Arith, snd: Sender, sn: nat, ts: u32): Sender {
    if InFlight(ar, snd, sn) then snd.(buf := CountSkipped(ar, snd.buf, sn, ts)) else snd
  }

  /** `ikcp_update_ack`. */
  function UpdateAck(cfg: Config, rtt: Rtt, sample: int): Rtt {
    var first := rtt.srtt == 0;
    var delta := if sample - rtt.srtt < 0 then rtt.srtt - sample else sample - rtt.srtt;
    var rttval := if first then TruncDiv(sample, 2) else ToI32(TruncDiv(ToI32(3 * rtt.rttval) + delta, 4));
    var smooth := TruncDiv(ToI32(ToI32(7 * rtt.srtt) + sample), 8);
    var srtt := if first then sample else if smooth < 1 then 1 else smooth;
    var rto := U32(srtt + Max(cfg.interval, U32(4 * rttval)));
    Rtt(srtt, rttval, Min(Max(cfg.minrto, rto), RTO_MAX))
  }

  // ----- ikcp_input: the receiver's side -----

  predicate BelowWindowEnd(ar: Arith, rcv: Receiver, wnd: nat, sn: nat) {
    Diff(ar, sn, Add(ar, rcv.nxt, wnd)) < 0
  }

  /** Insert keeping the order, searching from the back; drop a repeat. */
  function InsertBuf(ar: Arith, buf: seq<Item>, it: Item): seq<Item> {
    if buf == [] then [it]
    else
      var last := buf[|buf| - 1];
      if last.sn == it.sn then buf
      else if Diff(ar, it.sn, last.sn) > 0 then buf + [it]
      else InsertBuf(ar, buf[..|buf| - 1], it) + [last]
  }

  /** `ikcp_parse_data`. */
  function ParseData(ar: Arith, rcv: Receiver, wnd: nat, it: Item): Receiver {
    if !BelowWindowEnd(ar, rcv, wnd, it.sn) || Diff(ar, it.sn, rcv.nxt) < 0 then rcv
    else Drain(ar, rcv.(buf := InsertBuf(ar, rcv.buf, it)), wnd)
  }

  /** A push segment: acknowledge it if it lies below the window's end, keep it if it is new. */
  function TakePush(ar: Arith, rcv: Receiver, wnd: nat, p: Packet): Receiver {
    if BelowWindowEnd(ar, rcv, wnd, p.sn)
    then
      var rcv1 := rcv.(acks := rcv.acks + [Ack(p.sn, p.ts)]);
      if Diff(ar, p.sn, rcv.nxt) >= 0 then ParseData(ar, rcv1, wnd, Item(p.sn, Frag(p.frg, p.data))) else rcv1
    else rcv
  }

  // ----- ikcp_input: one segment, all segments, a datagram -----

  /** The highest acknowledged number seen in the datagram so far. */
  datatype Newest = NoAck | Newest(sn: nat, ts: u32)

  function Advance(ar: Arith, newest: Newest, sn: nat, ts: u32): Newest {
    match newest
    case NoAck => Newest(sn, ts)
    case Newest(maxack, latest) =>
      if Diff(ar, sn, maxack) > 0 && TimeDiff(ts, latest) > 0 then Newest(sn, ts) else newest
  }

  predicate KnownCmd(cmd: byte) {
    cmd == CMD_PUSH || cmd == CMD_ACK || cmd == CMD_WASK || cmd == CMD_WINS
  }

  /** What every segment does, whatever its command: `wnd` and `una` are always current. */
  function TakeUna(ar: Arith, k: Kcp, p: Packet): Kcp {
    k.(probe := k.probe.(rmtWnd := p.wnd), snd := ShrinkBuf(k.snd.(buf := ParseUna(ar, k.snd.buf, p.una))))
  }

  /** An acknowledgement of one segment. */
  function TakeAck(ar: Arith, k: Kcp, p: Packet): Kcp {
    var sample := TimeDiff(k.clock.current, p.ts);
    k.(rtt := if sample >= 0 then UpdateAck(k.cfg, k.rtt, sample) else k.rtt,
       snd := ShrinkBuf(ParseAck(ar, k.snd, p.sn)))
  }

  /** The effect of one well-formed segment. */
  function InputSeg(ar: Arith, k: Kcp, p: Packet): Kcp {
    var k1 := TakeUna(ar, k, p);
    if p.cmd == CMD_ACK then TakeAck(ar, k1, p)
    else if p.cmd == CMD_PUSH then k1.(rcv := TakePush(ar, k1.rcv, k1.cfg.rcvWnd, p))
    else if p.cmd == CMD_WASK then k1.(probe := k1.probe.(tell := true))
    else k1
  }

  function NewestAfter(ar: Arith, newest: Newest, p: Packet): Newest {
    if p.cmd == CMD_ACK then Advance(ar, newest, p.sn, p.ts) else newest
  }

  function Quot(a: u32, b: int): (q: u32)
    requires b > 0
  {
    a / b
  }

  /** Congestion avoidance: the byte credit of one acknowledging input. */
  function Credit(incr: u32, mss: int): (r: u32)
    requires 0 < mss < HALF
  {
    var incr0: u32 := Max(incr, mss);
    U32(incr0 + Quot(U32(mss * mss), incr0) + mss / 16)
  }

  function Opened(cong: Cong, mss: int): Cong
    requires 0 < mss < HALF
  {
    if cong.cwnd < cong.ssthresh
    then cong.(cwnd := Inc(cong.cwnd), incr := U32(cong.incr + mss))
    else
      var incr := Credit(cong.incr, mss);
      if U32(Inc(cong.cwnd) * mss) <= incr
      then cong.(incr := incr, cwnd := Quot(U32(incr + mss - 1), mss))
      else cong.(incr := incr)
  }

  /** Growth of the congestion window after an input that advanced `snd_una`. */
  function Grow(cong: Cong, rmtWnd: u32, mss: int): Cong
    requires 0 < mss < HALF
  {
    if cong.cwnd >= rmtWnd then cong
    else
      var c1 := Opened(cong, mss);
      if c1.cwnd > rmtWnd then c1.(cwnd := rmtWnd, incr := U32(rmtWnd * mss)) else c1
  }

  /** The end of `ikcp_input`. */
  function FinishInput(ar: Arith, k: Kcp, prevUna: nat, newest: Newest): Kcp {
    var snd := if newest.Newest? then ParseFastack(ar, k.snd, newest.sn, newest.ts) else k.snd;
    k.(snd := snd,
       cong := if Diff(ar, snd.una, prevUna) > 0 then Grow(k.cong, k.probe.rmtWnd, k.cfg.Mss()) else k.cong)
  }

  datatype InputResult = InputResult(k: Kcp, ret: int)

  /** Segments taken one after another.  A foreign conversation number or an unknown command stops
      the input at once: what was taken stays taken and `FinishInput` is skipped. */
  function InputSegs(ar: Arith, k: Kcp, d: Datagram, prevUna: nat, newest: Newest): InputResult
    decreases |d|
  {
    if d == [] then InputResult(FinishInput(ar, k, prevUna, newest), 0)
    else if d[0].conv != k.cfg.conv then InputResult(k, -1)
    else if !KnownCmd(d[0].cmd) then InputResult(k, -3)
    else InputSegs(ar, InputSeg(ar, k, d[0]), d[1..], prevUna, NewestAfter(ar, newest, d[0]))
  }

  /** The packet that a header and the bytes behind it make. */
  function PacketOf(h: Header, payload: seq<byte>): Packet {
    Packet(h.conv, h.cmd, h.frg, h.wnd, h.ts, h.sn, h.una, payload)
  }

  /** The loop of `ikcp_input` over raw bytes. */
  function InputBytes(ar: Arith, k: Kcp, b: seq<byte>, prevUna: nat, newest: Newest): InputResult
    decreases |b|
  {
    if |b| < OVERHEAD then InputResult(FinishInput(ar, k, prevUna, newest), 0)
    else
      var h := DecodeHeader(b);
      if h.conv != k.cfg.conv then InputResult(k, -1)
      else if |b| - OVERHEAD < h.len || ToI32(h.len) < 0 then InputResult(k, -2)
      else if !KnownCmd(h.cmd) then InputResult(k, -3)
      else
        var p := PacketOf(h, b[OVERHEAD..OVERHEAD + h.len]);
        InputBytes(ar, InputSeg(ar, k, p), b[OVERHEAD + h.len..], prevUna, NewestAfter(ar, newest, p))
  }

  /** `ikcp_input`. */
  function Input(ar: Arith, k: Kcp, b: seq<byte>): InputResult {
    if ToI32(|b|) < OVERHEAD then InputResult(k, -1)
    else InputBytes(ar, k, b, k.snd.una, NoAck)
  }

  // ----- ikcp_flush -----

  /** `ikcp_wnd_unused`. */
  function WndUnused(k: Kcp): u32 {
    if |k.rcv.queue| < k.cfg.rcvWnd then k.cfg.rcvWnd - |k.rcv.queue| else 0
  }

  /** The 16-bit window field. */
  function WndField(k: Kcp): u16 { WndUnused(k) % 0x1_0000 }

  /** The header that one flush puts on everything it sends. */
  function Template(k: Kcp): Packet {
    Packet(k.cfg.conv, CMD_ACK, 0, WndField(k), 0, 0, k.rcv.nxt, [])
  }

  function AckPackets(t: Packet, acks: seq<Ack>): seq<Packet> {
    if acks == [] then []
    else
      var a := acks[|acks| - 1];
      AckPackets(t, acks[..|acks| - 1]) + [t.(ts := a.ts, sn := a.sn)]
  }

  /** Zero-window probing: decide whether to ask for the peer's window. */
  function ProbeTimer(pr: Probe, current: u32): Probe {
    if pr.rmtWnd != 0 then pr.(ts := 0, wait := 0)
    else if pr.wait == 0 then pr.(wait := PROBE_INIT, ts := U32(current + PROBE_INIT))
    else if TimeDiff(current, pr.ts) >= 0 then
      var w0: u32 := if pr.wait < PROBE_INIT then PROBE_INIT else pr.wait;
      var w: u32 := Min(U32(w0 + w0 / 2), PROBE_LIMIT);
      pr.(wait := w, ts := U32(current + w), ask := true)
    else pr
  }

  /** Window probes and announcements.  They reuse the header of the last acknowledgement, or of
      an empty one. */
  function ProbePackets(t: Packet, acks: seq<Ack>, ask: bool, tell: bool): seq<Packet> {
    var last := if acks == [] then Ack(0, 0) else acks[|acks| - 1];
    var p := t.(ts := last.ts, sn := last.sn);
    (if ask then [p.(cmd := CMD_WASK)] else []) + (if tell then [p.(cmd := CMD_WINS)] else [])
  }

  /** The window that limits new segments. */
  function SendWindow(cfg: Config, pr: Probe, cong: Cong): u32 {
    var w := Min(cfg.sndWnd, pr.rmtWnd);
    if cfg.nocwnd == 0 then Min(cong.cwnd, w) else w
  }

  /** Move pieces from the queue into flight while the window allows. */
  function MoveToBuf(ar: Arith, snd: Sender, wnd: nat, current: u32, rto: u32): Sender
    decreases |snd.queue|
  {
    if Diff(ar, snd.nxt, Add(ar, snd.una, wnd)) < 0 && snd.queue != []
    then
      MoveToBuf(ar, snd.(queue := snd.queue[1..], nxt := Add(ar, snd.nxt, 1),
                         buf := snd.buf + [Seg(snd.nxt, snd.queue[0], current, current, rto, 0, 0)]),
                wnd, current, rto)
    else snd
  }

  /** What decides the fate of a segment in a flush. */
  datatype Env = Env(current: u32, rto: u32, rtomin: u32, resent: u32, nodelay: u32, fastlimit: int)

  datatype Fate = Keep | First | Timeout | Fast

  function FateOf(seg: Seg, e: Env): Fate {
    if seg.xmit == 0 then First
    else if TimeDiff(e.current, seg.resendts) >= 0 then Timeout
    else if seg.fastack >= e.resent && (ToI32(seg.xmit) <= e.fastlimit || e.fastlimit <= 0) then Fast
    else Keep
  }

  function Backoff(seg: Seg, e: Env): u32 {
    if e.nodelay == 0 then U32(seg.rto + Max(seg.rto, e.rto))
    else U32(seg.rto + TruncDiv(if e.nodelay < 2 then ToI32(seg.rto) else e.rto, 2))
  }

  function Touch(seg: Seg, e: Env): Seg {
    match FateOf(seg, e)
    case Keep => seg
    case First => seg.(xmit := Inc(seg.xmit), rto := e.rto, resendts := U32(e.current + e.rto + e.rtomin),
                       ts := e.current)
    case Timeout =>
      var rto := Backoff(seg, e);
      seg.(xmit := Inc(seg.xmit), rto := rto, resendts := U32(e.current + rto), ts := e.current)
    case Fast => seg.(xmit := Inc(seg.xmit), fastack := 0, resendts := U32(e.current + seg.rto), ts := e.current)
  }

  function PushPacket(t: Packet, seg: Seg, now: u32): Packet {
    t.(cmd := CMD_PUSH, frg := seg.frag.frg % 0x100, ts := now, sn := seg.sn, data := seg.frag.data)
  }

  /** The pass of one flush over the segments in flight: the segments after it, the packets sent,
      the retransmission counter, whether some segment was sent for a timeout or for fast
      acknowledgements, and whether the link is dead because some segment has been sent
      `dead_link` times. */
  datatype Sweep = Sweep(buf: seq<Seg>, packets: seq<Packet>, xmit: u32, lost: bool, change: bool, dead: bool)

  function SweepSeg(sw: Sweep, t: Packet, seg: Seg, e: Env, deadLink: u32): Sweep {
    var fate, seg' := FateOf(seg, e), Touch(seg, e);
    if fate.Keep? then sw.(buf := sw.buf + [seg'])
    else
      Sweep(sw.buf + [seg'], sw.packets + [PushPacket(t, seg', e.current)],
            if fate.Timeout? then Inc(sw.xmit) else sw.xmit, sw.lost || fate.Timeout?, sw.change || fate.Fast?,
            sw.dead || seg'.xmit >= deadLink)
  }

  function SweepAll(sw0: Sweep, t: Packet, buf: seq<Seg>, e: Env, deadLink: u32): (sw: Sweep)
    ensures |sw.buf| == |sw0.buf| + |buf|
  {
    if buf == [] then sw0
    else SweepSeg(SweepAll(sw0, t, buf[..|buf| - 1], e, deadLink), t, buf[|buf| - 1], e, deadLink)
  }

  function EnvOf(cfg: Config, rto: u32, now: u32): Env {
    Env(now, rto, if cfg.nodelay == 0 then rto / 8 else 0,
        if cfg.fastresend > 0 then U32(cfg.fastresend) else 0xffff_ffff, cfg.nodelay, cfg.fastlimit)
  }

  /** The windows after fast retransmission, and after a loss. */
  function FastCong(mss: int, inflight: u32, resent: u32): Cong {
    var thresh := Max(inflight / 2, THRESH_MIN);
    var cwnd := U32(thresh + resent);
    Cong(cwnd, U32(cwnd * mss), thresh)
  }

  function LossCong(mss: int, window: u32): Cong
    requires 0 < mss < HALF
  {
    Cong(1, mss, Max(window / 2, THRESH_MIN))
  }

  /** The congestion window after a flush: fast retransmission, then loss, then the floor of one. */
  function FlushCong(cong: Cong, mss: int, inflight: u32, window: u32, resent: u32, change: bool, lost: bool): Cong
    requires 0 < mss < HALF
  {
    var c1 := if lost then LossCong(mss, window) else if change then FastCong(mss, inflight, resent) else cong;
    if c1.cwnd < 1 then c1.(cwnd := 1, incr := mss) else c1
  }

  datatype FlushResult = FlushResult(k: Kcp, packets: seq<Packet>)

  /** What a flush does with data: fill the window, pass over what is in flight, adapt the
      congestion window. */
  datatype DataFlush = DataFlush(snd: Sender, cong: Cong, xmit: u32, dead: bool, packets: seq<Packet>)

  function FlushSend(ar: Arith, cfg: Config, snd: Sender, cong: Cong, window: u32, e: Env, t: Packet, xmit: u32,
                     dead: bool): DataFlush {
    var snd1 := MoveToBuf(ar, snd, window, e.current, e.rto);
    var sw := SweepAll(Sweep([], [], xmit, false, false, dead), t, snd1.buf, e, cfg.deadLink);
    var cong := FlushCong(cong, cfg.Mss(), U32(snd1.nxt - snd1.una), window, e.resent, sw.change, sw.lost);
    DataFlush(snd1.(buf := sw.buf), cong, sw.xmit, sw.dead, sw.packets)
  }

  /** `ikcp_flush`: the new state and the segments sent, in order. */
  function Flush(ar: Arith, k: Kcp): FlushResult {
    if !k.clock.updated then FlushResult(k, [])
    else
      var t := Template(k);
      var pr := ProbeTimer(k.probe, k.clock.current);
      var e := EnvOf(k.cfg, k.rtt.rto, k.clock.current);
      var w := FlushSend(ar, k.cfg, k.snd, k.cong, SendWindow(k.cfg, pr, k.cong), e, t, k.xmit, k.dead);
      FlushResult(
        k.(snd := w.snd, rcv := k.rcv.(acks := []), probe := pr.(ask := false, tell := false),
           cong := w.cong, dead := w.dead, xmit := w.xmit),
        AckPackets(t, k.rcv.acks) + ProbePackets(t, k.rcv.acks, pr.ask, pr.tell) + w.packets)
  }

  /** The size of the work buffer, an unsigned 32-bit product. */
  function WorkRoom(cfg: Config): nat { U32((cfg.mtu + OVERHEAD) * 3) }

  /** Whether a flush of this state writes beyond the work buffer, or forms a size that is no `int`. */
  predicate Overruns(k: Kcp) { !Stays(Packer([], []), k.cfg.mtu, Flush(Wrap32, k).packets, WorkRoom(k.cfg)) }

  // ----- ikcp_update, ikcp_check -----

  /** Whether `ikcp_update` at this time flushes. */
  predicate FlushDue(clock: Clock, now: u32) {
    !clock.updated || TimeDiff(now, clock.tsFlush) >= 0 || TimeDiff(now, clock.tsFlush) < -10000
  }

  function Tick(clock: Clock, now: u32, interval: u32): Clock {
    if !FlushDue(clock, now) then clock.(current := now)
    else
      var slap := TimeDiff(now, clock.tsFlush);
      var base := if !clock.updated || slap >= 10000 || slap < -10000 then now else clock.tsFlush;
      var next := U32(base + interval);
      Clock(now, if TimeDiff(now, next) >= 0 then U32(now + interval) else next, true)
  }

  function Update(ar: Arith, k: Kcp, now: u32): FlushResult {
    var k1 := k.(clock := Tick(k.clock, now, k.cfg.interval));
    if FlushDue(k.clock, now) then Flush(ar, k1) else FlushResult(k1, [])
  }

  /** The smallest time left before a segment is due, at most the default. */
  function FirstDue(buf: seq<Seg>, now: u32, default: int): int {
    if buf == [] then default
    else Min(FirstDue(buf[..|buf| - 1], now, default), TimeDiff(buf[|buf| - 1].resendts, now))
  }

  /** `ikcp_check`. */
  function Check(k: Kcp, now: u32): u32 {
    if FlushDue(k.clock, now) then now
    else
      var wait := FirstDue(k.snd.buf, now, TimeDiff(k.clock.tsFlush, now));
      if wait <= 0 then now else U32(now + Min(wait, k.cfg.interval))
  }

  // ----- configuration -----

  datatype Setting =
    | SetMtu(mtu: i32)
    | SetInterval(interval: i32)
    | SetNodelay(nodelay: i32, interval: i32, resend: i32, nc: i32)
    | SetWnd(snd: i32, rcv: i32)
    | SetStream(stream: i32)

  function ClampInterval(interval: i32): u32 {
    if interval > 5000 then 5000 else if interval < 10 then 10 else interval
  }

  /** The configuration functions. */
  function Configure(cfg: Config, s: Setting): Config {
    match s
    case SetMtu(mtu) => if mtu < 50 then cfg else cfg.(mtu := mtu)
    case SetInterval(interval) => cfg.(interval := ClampInterval(interval))
    case SetNodelay(nodelay, interval, resend, nc) =>
      var c1 := if nodelay >= 0 then cfg.(nodelay := U32(nodelay), minrto := if nodelay != 0 then RTO_NDL else RTO_MIN)
          else cfg;
      var c2 := if interval >= 0 then c1.(interval := ClampInterval(interval)) else c1;
      var c3 := if resend >= 0 then c2.(fastresend := resend) else c2;
      if nc >= 0 then c3.(nocwnd := nc) else c3
    case SetWnd(snd, rcv) =>
      var c1 := if snd > 0 then cfg.(sndWnd := U32(snd)) else cfg;
      if rcv > 0 then c1.(rcvWnd := Max(U32(rcv), WND_RCV)) else c1
    case SetStream(stream) => cfg.(stream := stream)
  }

  /** What the configuration functions establish. */
  predicate ValidConfig(cfg: Config) {
    WND_RCV <= cfg.rcvWnd < HALF && 10 <= cfg.interval <= 5000 && cfg.minrto <= RTO_MIN
  }
}
