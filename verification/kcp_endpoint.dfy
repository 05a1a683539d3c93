/** One endpoint as the C code keeps it: a control block whose fields, queues, acknowledgement list
    and work buffer are updated in place.  Every operation is proved equal to its function in
    `KcpSpec`, read with 32-bit arithmetic. */
module KcpEndpoint {
  import opened SeqNum
  import opened Wire
  import opened KcpSpec
  import Seqs

  function EncodeEach(ds: seq<Datagram>): (r: seq<seq<byte>>)
    ensures |r| == |ds|
  {
    if ds == [] then [] else EncodeEach(ds[..|ds| - 1]) + [EncodeAll(ds[|ds| - 1])]
  }

  lemma EncodeEachAppend(ds: seq<Datagram>, d: Datagram)
    ensures EncodeEach(ds + [d]) == EncodeEach(ds) + [EncodeAll(d)]
  {
    assert (ds + [d])[..|ds|] == ds;
  }

  lemma EncodeAllAppend(d: Datagram, p: Packet)
    ensures EncodeAll(d + [p]) == EncodeAll(d) + Encode(p)
  {
    assert (d + [p])[..|d|] == d;
  }

  /** `ikcp_encode8u`, `ikcp_encode16u`, `ikcp_encode32u`: write at `at`, return the next position. */
  method Put8(buf: array<byte>, at: nat, c: byte) returns (next: nat)
    requires at + 1 <= buf.Length
    modifies buf
    ensures next == at + 1 && buf[..next] == old(buf[..at]) + [c]
  {
    buf[at] := c;
    next := at + 1;
  }

  method Put16(buf: array<byte>, at: nat, w: u16) returns (next: nat)
    requires at + 2 <= buf.Length
    modifies buf
    ensures next == at + 2 && buf[..next] == old(buf[..at]) + LE16(w)
  {
    buf[at] := w % 0x100;
    buf[at + 1] := w / 0x100;
    next := at + 2;
  }

  method Put32(buf: array<byte>, at: nat, l: nat) returns (next: nat)
    requires at + 4 <= buf.Length
    modifies buf
    ensures next == at + 4 && buf[..next] == old(buf[..at]) + LE32(l)
  {
    var h := l / 0x1_0000;
    buf[at], buf[at + 1] := l % 0x100, l / 0x100 % 0x100;
    buf[at + 2], buf[at + 3] := h % 0x100, h / 0x100 % 0x100;
    next := at + 4;
  }

  /** `ikcp_encode_seg`. */
  method EncodeSeg(buf: array<byte>, at: nat, p: Packet) returns (next: nat)
    requires at + OVERHEAD <= buf.Length
    modifies buf
    ensures next == at + OVERHEAD && buf[..next] == old(buf[..at]) + EncodeHeader(p)
  {
    next := EncodeFront(buf, at, p);
    next := Put32(buf, next, p.ts);
    next := Put32(buf, next, p.sn);
    next := Put32(buf, next, p.una);
    next := Put32(buf, next, |p.data|);
  }

  /** The first eight bytes of a header. */
  method EncodeFront(buf: array<byte>, at: nat, p: Packet) returns (next: nat)
    requires at + 8 <= buf.Length
    modifies buf
    ensures next == at + 8 && buf[..next] == old(buf[..at]) + (LE32(p.conv) + [p.cmd, p.frg] + LE16(p.wnd))
  {
    next := Put32(buf, at, p.conv);
    next := Put8(buf, next, p.cmd);
    next := Put8(buf, next, p.frg);
    next := Put16(buf, next, p.wnd);
  }

  /** `memcpy` of a payload. */
  method PutBytes(buf: array<byte>, at: nat, data: seq<byte>) returns (next: nat)
    requires at + |data| <= buf.Length
    modifies buf
    ensures next == at + |data| && buf[..next] == old(buf[..at]) + data
  {
    for i := 0 to |data|
      invariant buf[..at + i] == old(buf[..at]) + data[..i]
    {
      buf[at + i] := data[i];
      assert data[..i + 1] == data[..i] + [data[i]];
    }
    next := at + |data|;
    assert data[..|data|] == data;
  }

  class IkcpCb {
    const conv: u32
    var mtu: Mtu
    var mss: int
    var dead: bool
    var sndUna: nat
    var sndNxt: nat
    var rcvNxt: nat
    var ssthresh: u32
    var rxRttval: int
    var rxSrtt: int
    var rxRto: u32
    var rxMinrto: u32
    var sndWnd: u32
    var rcvWnd: u32
    var rmtWnd: u32
    var cwnd: u32
    var incr: u32
    var ask: bool
    var tell: bool
    var current: u32
    var interval: u32
    var tsFlush: u32
    var xmit: u32
    var nrcvBuf: nat
    var nsndBuf: nat
    var nrcvQue: nat
    var nsndQue: nat
    var nodelay: u32
    var updated: bool
    var tsProbe: u32
    var probeWait: u32
    var deadLink: u32
    var sndQueue: seq<Frag>
    var rcvQueue: seq<Item>
    var sndBuf: seq<Seg>
    var rcvBuf: seq<Item>
    var acklist: array<Ack>
    var ackcount: nat
    var ackblock: nat
    var buffer: array<byte>
    var fastresend: int
    var fastlimit: int
    var nocwnd: int
    var stream: int
    /** What the output callback has been given. */
    var out: seq<seq<byte>>

    /** The four counters are the queue lengths; the derived sizes agree. */
    ghost predicate Valid()
      reads this`nsndQue, this`sndQueue, this`nsndBuf, this`sndBuf, this`nrcvQue, this`rcvQueue, this`nrcvBuf,
              this`rcvBuf,
            this`mss, this`mtu, this`buffer, this`ackcount, this`ackblock, this`acklist
    {
      && nsndQue == |sndQueue| && nsndBuf == |sndBuf| && nrcvQue == |rcvQueue| && nrcvBuf == |rcvBuf|
      && mss == mtu - OVERHEAD && buffer.Length == U32((mtu + OVERHEAD) * 3)
      && ackcount <= ackblock == acklist.Length
    }

    ghost function Cfg(): Config
      reads this`mtu, this`sndWnd, this`rcvWnd, this`interval, this`nodelay, this`rxMinrto, this`fastresend,
              this`fastlimit, this`nocwnd, this`stream, this`deadLink
    {
      Config(conv, mtu, sndWnd, rcvWnd, interval, nodelay, rxMinrto, fastresend, fastlimit, nocwnd, stream, deadLink)
    }

    ghost function Snd(): Sender
      reads this`sndUna, this`sndNxt, this`sndQueue, this`sndBuf
    {
      Sender(sndUna, sndNxt, sndQueue, sndBuf)
    }

    ghost function Rcv(): Receiver
      requires ackcount <= acklist.Length
      reads this`rcvNxt, this`rcvQueue, this`rcvBuf, this`acklist, this`ackcount, acklist
    {
      Receiver(rcvNxt, rcvQueue, rcvBuf, acklist[..ackcount])
    }

    ghost function Prb(): Probe
      reads this`rmtWnd, this`ask, this`tell, this`tsProbe, this`probeWait
    {
      Probe(rmtWnd, ask, tell, tsProbe, probeWait)
    }

    ghost function Cng(): Cong
      reads this`cwnd, this`incr, this`ssthresh
    {
      Cong(cwnd, incr, ssthresh)
    }

    ghost function Rtts(): Rtt
      reads this`rxSrtt, this`rxRttval, this`rxRto
    {
      Rtt(rxSrtt, rxRttval, rxRto)
    }

    ghost function Clk(): Clock
      reads this`current, this`tsFlush, this`updated
    {
      Clock(current, tsFlush, updated)
    }

    ghost function View(): Kcp
      requires ackcount <= acklist.Length
      reads this, acklist
    {
      Kcp(Cfg(), Snd(), Rcv(), Prb(), Cng(), Rtts(), Clk(), dead, xmit)
    }

    /** `ikcp_create`. */
    constructor (conv: u32)
      ensures Valid() && fresh(buffer) && fresh(acklist)
      ensures View() == Create(conv) && out == []
    {
      this.conv := conv;
      mtu, mss := MTU_DEF, MTU_DEF - OVERHEAD;
      dead := false;
      sndUna, sndNxt, rcvNxt := 0, 0, 0;
      ssthresh := THRESH_INIT;
      rxRttval, rxSrtt, rxRto, rxMinrto := 0, 0, RTO_DEF, RTO_MIN;
      sndWnd, rcvWnd, rmtWnd := WND_SND, WND_RCV, WND_RCV;
      cwnd, incr := 0, 0;
      ask, tell := false, false;
      current, interval, tsFlush, xmit := 0, INTERVAL, INTERVAL, 0;
      nrcvBuf, nsndBuf, nrcvQue, nsndQue := 0, 0, 0, 0;
      nodelay, updated := 0, false;
      tsProbe, probeWait, deadLink := 0, 0, DEADLINK;
      sndQueue, rcvQueue, sndBuf, rcvBuf := [], [], [], [];
      acklist := new Ack[0];
      ackcount, ackblock := 0, 0;
      buffer := new byte[(MTU_DEF + OVERHEAD) * 3];
      fastresend, fastlimit, nocwnd, stream := 0, FASTACK_LIMIT, 0, 0;
      out := [];
    }

    // ----- send -----

    /** Stream mode's append to the last piece; returns how many bytes it took. */
    method AppendToLast(data: seq<byte>) returns (sent: nat)
      requires Valid() && stream != 0
      modifies this`sndQueue
      ensures Valid()
      ensures sent == StreamRoom(Cfg(), old(sndQueue), |data|)
      ensures sndQueue == StreamExtend(Cfg(), old(sndQueue), data)
    {
      sent := 0;
      if sndQueue != [] {
        var last := sndQueue[|sndQueue| - 1];
        if |last.data| < mss {
          var capacity := mss - |last.data|;
          sent := if |data| < capacity then |data| else capacity;
          sndQueue := sndQueue[..|sndQueue| - 1] + [Frag(0, last.data + data[..sent])];
        }
      }
    }

    /** The loop that cuts a message into pieces. */
    method AppendPieces(data: seq<byte>, count: nat)
      requires Valid()
      modifies this`sndQueue, this`nsndQue
      ensures Valid()
      ensures sndQueue == old(sndQueue) + Cut(mss, data, count, stream != 0)
    {
      var rest := data;
      var i := 0;
      while i < count
        invariant 0 <= i <= count && nsndQue == |sndQueue|
        invariant sndQueue + Cut(mss, rest, count - i, stream != 0) == old(sndQueue)
                    + Cut(mss, data, count, stream != 0)
      {
        var size := if |rest| > mss then mss else |rest|;
        ghost var before, tail := sndQueue, Cut(mss, rest[size..], count - i - 1, stream != 0);
        var frag := Frag(if stream == 0 then count - i - 1 else 0, rest[..size]);
        sndQueue := sndQueue + [frag];
        nsndQue := nsndQue + 1;
        Seqs.Assoc(before, [frag], tail);
        rest := rest[size..];
        i := i + 1;
      }
      assert sndQueue + [] == sndQueue;
    }

    /** `ikcp_send`: append to the last piece in stream mode, then cut the rest into pieces. */
    method Send(buffer: seq<byte>, len: int) returns (ret: int)
      requires Valid() && len <= |buffer|
      modifies this`sndQueue, this`nsndQue
      ensures Valid()
      ensures len < 0 ==> ret == -1 && sndQueue == old(sndQueue)
      ensures len >= 0 ==> SendResult(sndQueue, ret) == KcpSpec.Send(Cfg(), old(sndQueue), buffer[..len])
    {
      if len < 0 {
        return -1;
      }
      var data := buffer[..len];
      var sent := 0;
      if stream != 0 {
        sent := AppendToLast(data);
        if len - sent <= 0 {
          return sent;
        }
      }
      var count := FragCount(len - sent, mss);
      if count >= WND_RCV {
        if stream != 0 && sent > 0 {
          return sent;
        }
        return -2;
      }
      AppendPieces(data[sent..], count);
      ret := len;
    }

    // ----- receive -----

    /** `ikcp_peeksize`. */
    method PeekSize() returns (size: int)
      requires Valid()
      ensures size == KcpSpec.PeekSize(rcvQueue)
    {
      if rcvQueue == [] {
        return -1;
      }
      var seg := rcvQueue[0];
      if seg.frag.frg == 0 {
        return |seg.frag.data|;
      }
      if nrcvQue < seg.frag.frg + 1 {
        return -1;
      }
      size := 0;
      var i := 0;
      while i < |rcvQueue|
        invariant 0 <= i <= |rcvQueue| && size == |ItemBytes(rcvQueue[..i])|
        invariant MergeCount(rcvQueue) == i + MergeCount(rcvQueue[i..])
      {
        seg := rcvQueue[i];
        size := size + |seg.frag.data|;
        assert rcvQueue[..i + 1][..i] == rcvQueue[..i];
        i := i + 1;
        if seg.frag.frg == 0 {
          break;
        }
      }
      assert i == MergeCount(rcvQueue);
    }

    /** The loop that moves contiguous items from the reorder buffer to the receive queue. */
    method MoveToQueue()
      requires Valid()
      modifies this`rcvBuf, this`nrcvBuf, this`rcvQueue, this`nrcvQue, this`rcvNxt
      ensures Valid()
      ensures Rcv() == Drain(Wrap32, old(Rcv()), rcvWnd)
    {
      while rcvBuf != []
        invariant Valid()
        invariant Drain(Wrap32, Rcv(), rcvWnd) == Drain(Wrap32, old(Rcv()), rcvWnd)
        decreases |rcvBuf|
      {
        var seg := rcvBuf[0];
        if seg.sn == rcvNxt && nrcvQue < rcvWnd {
          rcvBuf := rcvBuf[1..];
          nrcvBuf := nrcvBuf - 1;
          rcvQueue := rcvQueue + [seg];
          nrcvQue := nrcvQue + 1;
          rcvNxt := Add(Wrap32, rcvNxt, 1);
        } else {
          break;
        }
      }
    }

    /** The merge loop: collect the pieces of one message, removing them unless peeking. */
    method Merge(peek: bool) returns (data: seq<byte>)
      requires Valid()
      modifies this`rcvQueue, this`nrcvQue
      ensures Valid()
      ensures data == ItemBytes(old(rcvQueue)[..MergeCount(old(rcvQueue))])
      ensures rcvQueue == if peek then old(rcvQueue) else old(rcvQueue)[MergeCount(old(rcvQueue))..]
    {
      ghost var queue, i := rcvQueue, 0;
      data := [];
      var p := rcvQueue;
      while p != []
        invariant 0 <= i <= |queue| && p == queue[i..] && nrcvQue == |rcvQueue|
        invariant data == ItemBytes(queue[..i])
        invariant MergeCount(queue) == i + MergeCount(p)
        invariant rcvQueue == if peek then queue else p
        decreases |p|
      {
        var seg := p[0];
        p := p[1..];
        data := data + seg.frag.data;
        assert queue[..i + 1][..i] == queue[..i];
        if !peek {
          rcvQueue := rcvQueue[1..];
          nrcvQue := nrcvQue - 1;
        }
        i := i + 1;
        if seg.frag.frg == 0 {
          break;
        }
      }
    }

    /** The second half of `ikcp_recv`. */
    method TakeMessage(peek: bool) returns (data: seq<byte>)
      requires Valid()
      modifies this`rcvBuf, this`nrcvBuf, this`rcvQueue, this`nrcvQue, this`rcvNxt, this`tell
      ensures Valid()
      ensures var m := KcpSpec.TakeMessage(Wrap32, old(View()), peek);
              data == m.data && |data| == m.ret && Rcv() == m.k.rcv && Prb() == m.k.probe
    {
      hide Drain, MergeCount, ItemBytes, Snd, Cng, Rtts, Clk;
      var recover := nrcvQue >= rcvWnd;
      data := Merge(peek);
      MoveToQueue();
      if nrcvQue < rcvWnd && recover {
        tell := true;
      }
    }

    /** `ikcp_recv`; `data` is what it copies to the caller's buffer. */
    method Recv(len: int) returns (ret: int, data: seq<byte>)
      requires Valid()
      modifies this`rcvBuf, this`nrcvBuf, this`rcvQueue, this`nrcvQue, this`rcvNxt, this`tell
      ensures Valid()
      ensures RecvResult(View(), ret, data) == KcpSpec.Recv(Wrap32, old(View()), len)
    {
      hide Drain, MergeCount, ItemBytes, KcpSpec.PeekSize, Cfg, Snd, Prb, Cng, Rtts, Clk;
      if rcvQueue == [] {
        return -1, [];
      }
      var room := if len < 0 then -len else len;
      var peeksize := PeekSize();
      if peeksize < 0 {
        return -2, [];
      }
      if peeksize > room {
        return -3, [];
      }
      data := TakeMessage(len < 0);
      ret := |data|;
    }

    // ----- input -----

    /** `ikcp_parse_una`. */
    method ParseUna(una: nat)
      requires Valid()
      modifies this`sndBuf, this`nsndBuf
      ensures Valid()
      ensures sndBuf == KcpSpec.ParseUna(Wrap32, old(sndBuf), una)
    {
      while sndBuf != []
        invariant nsndBuf == |sndBuf|
        invariant KcpSpec.ParseUna(Wrap32, sndBuf, una) == KcpSpec.ParseUna(Wrap32, old(sndBuf), una)
        decreases |sndBuf|
      {
        if Diff(Wrap32, una, sndBuf[0].sn) > 0 {
          sndBuf := sndBuf[1..];
          nsndBuf := nsndBuf - 1;
        } else {
          break;
        }
      }
    }

    /** `ikcp_shrink_buf`. */
    method ShrinkBuf()
      requires Valid()
      modifies this`sndUna
      ensures Valid()
      ensures Snd() == KcpSpec.ShrinkBuf(old(Snd()))
    {
      if sndBuf != [] {
        sndUna := sndBuf[0].sn;
      } else {
        sndUna := sndNxt;
      }
    }

    /** The search of `ikcp_parse_ack`: where the acknowledged segment is, if it is there. */
    method FindAcked(sn: nat) returns (i: nat)
      requires Valid()
      ensures i <= |sndBuf|
      ensures RemoveSeg(Wrap32, sndBuf, sn) == if i < |sndBuf| then sndBuf[..i] + sndBuf[i + 1..] else sndBuf
    {
      i := 0;
      while i < |sndBuf|
        invariant 0 <= i <= |sndBuf|
        invariant RemoveSeg(Wrap32, sndBuf, sn) == sndBuf[..i] + RemoveSeg(Wrap32, sndBuf[i..], sn)
      {
        Seqs.SplitAt(sndBuf, i);
        if sn == sndBuf[i].sn {
          return;
        }
        if Diff(Wrap32, sn, sndBuf[i].sn) < 0 {
          return |sndBuf|;
        }
        Seqs.Assoc(sndBuf[..i], [sndBuf[i]], RemoveSeg(Wrap32, sndBuf[i + 1..], sn));
        i := i + 1;
      }
      assert sndBuf[..i] == sndBuf && sndBuf[..i] + [] == sndBuf;
    }

    /** `ikcp_parse_ack`. */
    method ParseAck(sn: nat)
      requires Valid()
      modifies this`sndBuf, this`nsndBuf
      ensures Valid()
      ensures Snd() == KcpSpec.ParseAck(Wrap32, old(Snd()), sn)
    {
      hide RemoveSeg, Diff;
      if Diff(Wrap32, sn, sndUna) < 0 || Diff(Wrap32, sn, sndNxt) >= 0 {
        return;
      }
      var i := FindAcked(sn);
      if i < |sndBuf| {
        sndBuf := sndBuf[..i] + sndBuf[i + 1..];
        nsndBuf := nsndBuf - 1;
      }
    }

    /** The loop of `ikcp_parse_fastack`: the counters change where they stand. */
    method CountSkipped(sn: nat, ts: u32)
      requires Valid()
      modifies this`sndBuf
      ensures Valid()
      ensures sndBuf == KcpSpec.CountSkipped(Wrap32, old(sndBuf), sn, ts)
    {
      hide KcpSpec.CountSkipped, TimeDiff;
      ghost var all, done := sndBuf, [];
      var i := 0;
      CountStart(Wrap32, all, sn, ts);
      while i < |sndBuf|
        invariant 0 <= i <= |sndBuf| == |all| && |done| == i && sndBuf == done + all[i..]
        invariant KcpSpec.CountSkipped(Wrap32, all, sn, ts) == done + KcpSpec.CountSkipped(Wrap32, all[i..], sn, ts)
      {
        var seg := sndBuf[i];
        ghost var seg' := Skipped(Wrap32, all[i], sn, ts);
        Seqs.UpdateAt(done, all, i, seg');
        if Diff(Wrap32, sn, seg.sn) < 0 {
          break;
        } else if sn != seg.sn {
          if TimeDiff(ts, seg.ts) >= 0 {
            sndBuf := sndBuf[i := seg.(fastack := Inc(seg.fastack))];
          }
        }
        assert sndBuf == (done + [seg']) + all[i + 1..];
        CountNext(Wrap32, all, done, i, sn, ts);
        done := done + [seg'];
        i := i + 1;
      }
      CountEnd(Wrap32, all[i..], sn, ts);
    }

    /** `ikcp_parse_fastack`. */
    method ParseFastack(sn: nat, ts: u32)
      requires Valid()
      modifies this`sndBuf
      ensures Valid()
      ensures Snd() == KcpSpec.ParseFastack(Wrap32, old(Snd()), sn, ts)
    {
      if Diff(Wrap32, sn, sndUna) < 0 || Diff(Wrap32, sn, sndNxt) >= 0 {
        return;
      }
      CountSkipped(sn, ts);
    }

    /** The growth step of `ikcp_ack_push`: double the block until the new size fits. */
    method GrowAcks(newsize: nat)
      requires Valid() && newsize > ackblock
      modifies this`acklist, this`ackblock
      ensures Valid() && fresh(acklist) && newsize <= ackblock
      ensures acklist[..ackcount] == old(acklist[..ackcount])
    {
      var newblock := 8;
      while newblock < newsize {
        newblock := newblock * 2;
      }
      var list := new Ack[newblock];
      var from := acklist;
      for x := 0 to ackcount
        invariant from == old(acklist) && list[..x] == from[..x]
      {
        list[x] := from[x];
      }
      acklist := list;
      ackblock := newblock;
    }

    /** `ikcp_ack_push`. */
    method AckPush(sn: nat, ts: u32)
      requires Valid()
      modifies this`acklist, this`ackcount, this`ackblock, acklist
      ensures Valid() && (acklist == old(acklist) || fresh(acklist))
      ensures Rcv() == old(Rcv()).(acks := old(acklist[..ackcount]) + [Ack(sn, ts)])
    {
      if ackcount + 1 > ackblock {
        GrowAcks(ackcount + 1);
      }
      acklist[ackcount] := Ack(sn, ts);
      ackcount := ackcount + 1;
    }

    /** The insertion loop of `ikcp_parse_data`, searching from the back. */
    method InsertItem(it: Item)
      requires Valid()
      modifies this`rcvBuf, this`nrcvBuf
      ensures Valid()
      ensures rcvBuf == InsertBuf(Wrap32, old(rcvBuf), it)
    {
      ghost var all := rcvBuf;
      var repeated := false;
      var i := |rcvBuf|;
      assert all[..i] == all && InsertBuf(Wrap32, all, it) + [] == InsertBuf(Wrap32, all, it);
      while i > 0
        invariant 0 <= i <= |rcvBuf| == nrcvBuf && rcvBuf == all && !repeated
        invariant InsertBuf(Wrap32, all, it) == InsertBuf(Wrap32, all[..i], it) + all[i..]
      {
        var seg := rcvBuf[i - 1];
        Seqs.SplitAt(all, i - 1);
        if seg.sn == it.sn {
          repeated := true;
          break;
        }
        if Diff(Wrap32, it.sn, seg.sn) > 0 {
          break;
        }
        Seqs.Assoc(InsertBuf(Wrap32, all[..i - 1], it), [seg], all[i..]);
        i := i - 1;
      }
      if !repeated {
        rcvBuf := rcvBuf[..i] + [it] + rcvBuf[i..];
        nrcvBuf := nrcvBuf + 1;
      }
    }

    /** `ikcp_parse_data`. */
    method ParseData(it: Item)
      requires Valid()
      modifies this`rcvBuf, this`nrcvBuf, this`rcvQueue, this`nrcvQue, this`rcvNxt
      ensures Valid()
      ensures Rcv() == KcpSpec.ParseData(Wrap32, old(Rcv()), rcvWnd, it)
    {
      if Diff(Wrap32, it.sn, Add(Wrap32, rcvNxt, rcvWnd)) >= 0 || Diff(Wrap32, it.sn, rcvNxt) < 0 {
        return;
      }
      InsertItem(it);
      MoveToQueue();
    }

    /** `ikcp_update_ack`. */
    method UpdateAck(rtt: int)
      requires Valid()
      modifies this`rxSrtt, this`rxRttval, this`rxRto
      ensures Valid()
      ensures Rtts() == KcpSpec.UpdateAck(Cfg(), old(Rtts()), rtt)
    {
      hide ToI32, U32, TruncDiv;
      if rxSrtt == 0 {
        rxSrtt := rtt;
        rxRttval := TruncDiv(rtt, 2);
      } else {
        var delta := rtt - rxSrtt;
        if delta < 0 {
          delta := -delta;
        }
        rxRttval := ToI32(TruncDiv(ToI32(3 * rxRttval) + delta, 4));
        rxSrtt := TruncDiv(ToI32(ToI32(7 * rxSrtt) + rtt), 8);
        if rxSrtt < 1 {
          rxSrtt := 1;
        }
      }
      var rto := U32(rxSrtt + Max(interval, U32(4 * rxRttval)));
      rxRto := Min(Max(rxMinrto, rto), RTO_MAX);
    }

    /** The push branch of `ikcp_input`. */
    method InputPush(p: Packet)
      requires Valid()
      modifies this`rcvBuf, this`nrcvBuf, this`rcvQueue, this`nrcvQue, this`rcvNxt,
               this`acklist, this`ackcount, this`ackblock, acklist
      ensures Valid() && (acklist == old(acklist) || fresh(acklist))
      ensures Rcv() == TakePush(Wrap32, old(Rcv()), rcvWnd, p)
    {
      if Diff(Wrap32, p.sn, Add(Wrap32, rcvNxt, rcvWnd)) < 0 {
        AckPush(p.sn, p.ts);
        if Diff(Wrap32, p.sn, rcvNxt) >= 0 {
          ParseData(Item(p.sn, Frag(p.frg, p.data)));
        }
      }
    }

    /** The acknowledgement branch of `ikcp_input`. */
    method InputAck(p: Packet)
      requires Valid()
      modifies this`rxSrtt, this`rxRttval, this`rxRto, this`sndBuf, this`nsndBuf, this`sndUna
      ensures Valid()
      ensures var sample := TimeDiff(current, p.ts);
              Rtts() == if sample >= 0 then KcpSpec.UpdateAck(Cfg(), old(Rtts()), sample) else old(Rtts())
      ensures Snd() == KcpSpec.ShrinkBuf(KcpSpec.ParseAck(Wrap32, old(Snd()), p.sn))
    {
      hide TimeDiff, KcpSpec.UpdateAck, KcpSpec.ShrinkBuf, KcpSpec.ParseAck, Cfg, Snd, Rtts;
      if TimeDiff(current, p.ts) >= 0 {
        UpdateAck(TimeDiff(current, p.ts));
      }
      ParseAck(p.sn);
      ShrinkBuf();
    }

    /** What the loop in `ikcp_input` does for every segment, whatever its command. */
    method InputUna(p: Packet)
      requires Valid()
      modifies this`rmtWnd, this`sndBuf, this`nsndBuf, this`sndUna
      ensures Valid()
      ensures Prb() == old(Prb()).(rmtWnd := p.wnd)
      ensures var snd := old(Snd()); Snd() == KcpSpec.ShrinkBuf(snd.(buf := KcpSpec.ParseUna(Wrap32, snd.buf, p.una)))
    {
      hide KcpSpec.ShrinkBuf, KcpSpec.ParseUna;
      rmtWnd := p.wnd;
      ParseUna(p.una);
      ShrinkBuf();
    }

    method AskedForWindow()
      requires Valid()
      modifies this`tell
      ensures Valid() && Prb() == old(Prb()).(tell := true)
    {
      tell := true;
    }

    /** What the segment's own command asks for. */
    method InputCommand(p: Packet)
      requires Valid()
      modifies this`tell, this`sndBuf, this`nsndBuf, this`sndUna, this`rxSrtt, this`rxRttval, this`rxRto,
               this`rcvBuf, this`nrcvBuf, this`rcvQueue, this`nrcvQue, this`rcvNxt,
               this`acklist, this`ackcount, this`ackblock, acklist
      ensures Valid() && (acklist == old(acklist) || fresh(acklist))
      ensures var sample := TimeDiff(current, p.ts);
              Rtts() == if p.cmd == CMD_ACK && sample >= 0 then KcpSpec.UpdateAck(Cfg(), old(Rtts()), sample)
                  else old(Rtts())
      ensures Snd() == if p.cmd == CMD_ACK then KcpSpec.ShrinkBuf(KcpSpec.ParseAck(Wrap32, old(Snd()), p.sn))
                else old(Snd())
      ensures Rcv() == if p.cmd == CMD_PUSH then TakePush(Wrap32, old(Rcv()), rcvWnd, p) else old(Rcv())
      ensures Prb() == if p.cmd == CMD_WASK then old(Prb()).(tell := true) else old(Prb())
    {
      hide Cfg, Snd, Rcv, Prb, Rtts, TakePush, KcpSpec.UpdateAck, KcpSpec.ShrinkBuf, KcpSpec.ParseAck, TimeDiff;
      if p.cmd == CMD_ACK {
        InputAck(p);
      } else if p.cmd == CMD_PUSH {
        InputPush(p);
      } else if p.cmd == CMD_WASK {
        AskedForWindow();
      }
    }

    /** What is current in every segment, then the command. */
    method InputParts(p: Packet)
      requires Valid()
      modifies this`rmtWnd, this`tell, this`sndBuf, this`nsndBuf, this`sndUna, this`rxSrtt, this`rxRttval, this`rxRto,
               this`rcvBuf, this`nrcvBuf, this`rcvQueue, this`nrcvQue, this`rcvNxt,
               this`acklist, this`ackcount, this`ackblock, acklist
      ensures Valid() && (acklist == old(acklist) || fresh(acklist))
      ensures var k' := InputSeg(Wrap32, old(View()), p);
              Snd() == k'.snd && Rcv() == k'.rcv && Prb() == k'.probe && Rtts() == k'.rtt
    {
      hide Cfg, Snd, Rcv, Prb, Cng, Rtts, TakePush, KcpSpec.UpdateAck, KcpSpec.ShrinkBuf, KcpSpec.ParseAck,
        KcpSpec.ParseUna, TimeDiff, InputSeg;
      Sizes();
      InputSegIs(View(), p);
      InputUna(p);
      InputCommand(p);
    }

    /** The body of the loop in `ikcp_input`, for a segment that passed its checks. */
    method InputOne(p: Packet, newest: Newest) returns (newest': Newest)
      requires Valid() && KnownCmd(p.cmd)
      modifies this`rmtWnd, this`tell, this`sndBuf, this`nsndBuf, this`sndUna, this`rxSrtt, this`rxRttval, this`rxRto,
               this`rcvBuf, this`nrcvBuf, this`rcvQueue, this`nrcvQue, this`rcvNxt,
               this`acklist, this`ackcount, this`ackblock, acklist
      ensures Valid() && (acklist == old(acklist) || fresh(acklist))
      ensures View() == InputSeg(Wrap32, old(View()), p)
      ensures newest' == NewestAfter(Wrap32, newest, p)
    {
      hide Cfg, Snd, Rcv, Prb, Cng, Rtts, Advance, InputSeg;
      InputSegIs(View(), p);
      InputParts(p);
      newest' := if p.cmd == CMD_ACK then Advance(Wrap32, newest, p.sn, p.ts) else newest;
    }

    lemma Sizes()
      requires Valid()
      ensures Cfg().rcvWnd == rcvWnd && Cfg().mtu == mtu && Cfg().Mss() == mss && WorkRoom(Cfg()) == buffer.Length
      ensures Prb().rmtWnd == rmtWnd && Snd().una == sndUna
    {}

    /** The growth of the congestion window in `ikcp_input`. */
    method GrowWindow()
      requires Valid()
      modifies this`cwnd, this`incr
      ensures Valid()
      ensures Cng() == Grow(old(Cng()), rmtWnd, mss)
    {
      if cwnd < rmtWnd {
        if cwnd < ssthresh {
          cwnd := Inc(cwnd);
          incr := U32(incr + mss);
        } else {
          incr := Credit(incr, mss);
          if U32(Inc(cwnd) * mss) <= incr {
            cwnd := Quot(U32(incr + mss - 1), mss);
          }
        }
        if cwnd > rmtWnd {
          cwnd := rmtWnd;
          incr := U32(rmtWnd * mss);
        }
      }
    }

    /** The end of `ikcp_input`: fast acknowledgements and the growth of the window. */
    method EndInput(prevUna: nat, newest: Newest)
      requires Valid()
      modifies this`sndBuf, this`cwnd, this`incr
      ensures Valid()
      ensures View() == FinishInput(Wrap32, old(View()), prevUna, newest)
    {
      hide KcpSpec.ParseFastack, Grow, Diff, Cfg, Rcv, Prb, Cng, Rtts, Clk;
      Sizes();
      if newest.Newest? {
        ParseFastack(newest.sn, newest.ts);
      }
      if Diff(Wrap32, sndUna, prevUna) > 0 {
        GrowWindow();
      }
    }

    /** The loop of `ikcp_input`; not `done` means that the end of the input is still to come. */
    method InputLoop(data: seq<byte>) returns (done: bool, ret: int, newest: Newest)
      requires Valid()
      modifies this`rmtWnd, this`tell, this`sndBuf, this`nsndBuf, this`sndUna, this`rxSrtt, this`rxRttval, this`rxRto,
               this`rcvBuf, this`nrcvBuf, this`rcvQueue, this`nrcvQue, this`rcvNxt,
               this`acklist, this`ackcount, this`ackblock, acklist
      ensures Valid() && (acklist == old(acklist) || fresh(acklist))
      ensures forall una :: InputBytes(Wrap32, old(View()), data, una, NoAck)
                         == if done then InputResult(View(), ret)
                             else InputResult(FinishInput(Wrap32, View(), una, newest), 0)
    {
      hide InputSeg, FinishInput, DecodeHeader, ToI32, Cfg, Snd, Rcv, Prb, Cng, Rtts, Clk, NewestAfter;
      var rest := data;
      done, ret, newest := true, 0, NoAck;
      while |rest| >= OVERHEAD
        invariant Valid() && (acklist == old(acklist) || fresh(acklist))
        invariant forall una :: InputBytes(Wrap32, View(), rest, una, newest) ==
                    InputBytes(Wrap32, old(View()), data, una, NoAck)
        decreases |rest|
      {
        Conversation();
        var h := DecodeHeader(rest);
        if h.conv != conv {
          ret := -1;
          return;
        }
        if |rest| - OVERHEAD < h.len || ToI32(h.len) < 0 {
          ret := -2;
          return;
        }
        if !KnownCmd(h.cmd) {
          ret := -3;
          return;
        }
        newest := InputOne(PacketOf(h, rest[OVERHEAD..OVERHEAD + h.len]), newest);
        rest := rest[OVERHEAD + h.len..];
      }
      done := false;
    }

    lemma Timing()
      ensures Clk().updated == updated && Clk().current == current && Rtts().rto == rxRto
    {}

    lemma Linkage()
      ensures Cfg().deadLink == deadLink
    {}

    lemma Conversation()
      ensures Cfg().conv == conv
    {}

    /** `ikcp_input`. */
    method Input(data: seq<byte>) returns (ret: int)
      requires Valid()
      modifies this`rmtWnd, this`tell, this`sndBuf, this`nsndBuf, this`sndUna, this`rxSrtt, this`rxRttval, this`rxRto,
               this`rcvBuf, this`nrcvBuf, this`rcvQueue, this`nrcvQue, this`rcvNxt,
               this`acklist, this`ackcount, this`ackblock, acklist, this`cwnd, this`incr
      ensures Valid() && (acklist == old(acklist) || fresh(acklist))
      ensures InputResult(View(), ret) == KcpSpec.Input(Wrap32, old(View()), data)
    {
      hide ToI32, InputBytes, FinishInput, Cfg, Rcv, Prb, Cng, Rtts, Clk;
      if ToI32(|data|) < OVERHEAD {
        return -1;
      }
      var prevUna := sndUna;
      var done, newest;
      done, ret, newest := InputLoop(data);
      if done {
        return;
      }
      EndInput(prevUna, newest);
      ret := 0;
    }

    // ----- flush -----

    /** The state of the work buffer between two segments: `ptr` bytes that encode the open
        datagram, after the closed ones went to the output callback. */
    ghost predicate Working(ptr: nat, pk: Packer, before: seq<seq<byte>>)
      reads this`buffer, this`out, buffer
    {
      && ptr <= buffer.Length && buffer[..ptr] == EncodeAll(pk.cur)
      && out == before + EncodeEach(pk.done)
    }

    /** `ikcp_output` of the first `size` bytes. */
    method Output(size: nat, ghost pk: Packer, ghost before: seq<seq<byte>>)
      requires Working(size, pk, before)
      modifies this`out
      ensures out == before + EncodeEach(Sent(pk))
    {
      if size == 0 {
        return;
      }
      assert |EncodeAll(pk.cur)| == size;
      EncodeEachAppend(pk.done, pk.cur);
      out := out + [buffer[..size]];
    }

    /** Send what has accumulated if the segment does not fit, then encode the segment. */
    method EmitSeg(ptr: nat, p: Packet, ghost pk: Packer, ghost before: seq<seq<byte>>) returns (ptr': nat)
      requires Valid() && Working(ptr, pk, before) && Room(pk.cur, mtu, p, buffer.Length)
      modifies buffer, this`out
      ensures Working(ptr', Emit(pk, mtu, p), before)
    {
      ghost var cur := pk.cur;
      ptr' := ptr;
      var sum: i32 := ptr + Size(p);
      if sum > mtu {
        Output(ptr, pk, before);
        ptr' := 0;
        cur := [];
      }
      EncodeAllAppend(cur, p);
      Seqs.Assoc(EncodeAll(cur), EncodeHeader(p), p.data);
      ptr' := EncodeSeg(buffer, ptr', p);
      ptr' := PutBytes(buffer, ptr', p.data);
    }

    /** The loop of `ikcp_flush` over the pending acknowledgements. */
    method FlushAcks(t: Packet) returns (ptr: nat, ghost pk: Packer)
      requires Valid() && Stays(Packer([], []), mtu, AckPackets(t, acklist[..ackcount]), buffer.Length)
      modifies buffer, this`out
      ensures pk == EmitAll(Packer([], []), mtu, AckPackets(t, acklist[..ackcount]))
      ensures Working(ptr, pk, old(out))
    {
      hide EmitAll, Emit, AckPackets, EncodeAll, EncodeEach, Stays, Room;
      ptr, pk := 0, Packer([], []);
      NothingPacked(t, mtu);
      assert buffer[..0] == [] && out == out + [];
      var i := 0;
      while i < ackcount
        invariant 0 <= i <= ackcount
        invariant pk == EmitAll(Packer([], []), mtu, AckPackets(t, acklist[..i]))
        invariant Working(ptr, pk, old(out))
      {
        var p := t.(ts := acklist[i].ts, sn := acklist[i].sn);
        AckStays(t, acklist[..ackcount], i, mtu, buffer.Length);
        assert acklist[..ackcount][..i] == acklist[..i] && acklist[..ackcount][i] == acklist[i];
        ptr := EmitSeg(ptr, p, pk, old(out));
        pk := Emit(pk, mtu, p);
        AckPacketsAppend(t, acklist[..i], acklist[i]);
        assert acklist[..i + 1] == acklist[..i] + [acklist[i]];
        EmitAllAppend1(Packer([], []), mtu, AckPackets(t, acklist[..i]), p);
        i := i + 1;
      }
    }

    lemma NothingPacked(t: Packet, mtu: nat)
      ensures EmitAll(Packer([], []), mtu, AckPackets(t, [])) == Packer([], []) && EncodeAll([]) == []
              && EncodeEach([]) == []
    {}

    /** The zero-window probe timer of `ikcp_flush`. */
    method ProbeWindow()
      requires Valid()
      modifies this`probeWait, this`tsProbe, this`ask
      ensures Valid()
      ensures Prb() == ProbeTimer(old(Prb()), current)
    {
      if rmtWnd == 0 {
        if probeWait == 0 {
          probeWait := PROBE_INIT;
          tsProbe := U32(current + probeWait);
        } else {
          if TimeDiff(current, tsProbe) >= 0 {
            if probeWait < PROBE_INIT {
              probeWait := PROBE_INIT;
            }
            probeWait := U32(probeWait + probeWait / 2);
            if probeWait > PROBE_LIMIT {
              probeWait := PROBE_LIMIT;
            }
            tsProbe := U32(current + probeWait);
            ask := true;
          }
        }
      } else {
        tsProbe := 0;
        probeWait := 0;
      }
    }

    /** The window commands of `ikcp_flush`, sent under the header `p`. */
    method FlushProbes(ptr: nat, p: Packet, ghost pk: Packer, ghost before: seq<seq<byte>>)
      returns (ptr': nat, ghost pk': Packer)
      requires Valid() && Working(ptr, pk, before)
      requires Stays(pk, mtu, (if ask then [p.(cmd := CMD_WASK)] else [])
                 + (if tell then [p.(cmd := CMD_WINS)] else []),
                     buffer.Length)
      modifies buffer, this`out
      ensures pk' == EmitAll(pk, mtu,
                             (if ask then [p.(cmd := CMD_WASK)] else []) + (if tell then [p.(cmd := CMD_WINS)] else []))
      ensures Working(ptr', pk', before)
    {
      hide EncodeAll, EncodeEach, Emit, Working, Stays, Room;
      ProbesStay(pk, mtu, p, ask, tell, buffer.Length);
      ptr', pk' := ptr, pk;
      if ask {
        ptr' := EmitSeg(ptr', p.(cmd := CMD_WASK), pk', before);
        EmitAllAppend1(pk', mtu, [], p.(cmd := CMD_WASK));
        pk' := Emit(pk', mtu, p.(cmd := CMD_WASK));
      }
      if tell {
        ptr' := EmitSeg(ptr', p.(cmd := CMD_WINS), pk', before);
        EmitAllAppend1(pk, mtu, if ask then [p.(cmd := CMD_WASK)] else [], p.(cmd := CMD_WINS));
        pk' := Emit(pk', mtu, p.(cmd := CMD_WINS));
      }
    }

    /** Move pieces into flight while the window allows. */
    method MoveToBuf(window: u32)
      requires Valid()
      modifies this`sndQueue, this`nsndQue, this`sndBuf, this`nsndBuf, this`sndNxt
      ensures Valid()
      ensures Snd() == KcpSpec.MoveToBuf(Wrap32, old(Snd()), window, current, rxRto)
    {
      while Diff(Wrap32, sndNxt, Add(Wrap32, sndUna, window)) < 0
        invariant Valid()
        invariant KcpSpec.MoveToBuf(Wrap32, Snd(), window, current, rxRto)
               == KcpSpec.MoveToBuf(Wrap32, old(Snd()), window, current, rxRto)
        decreases |sndQueue|
      {
        if sndQueue == [] {
          break;
        }
        var frag := sndQueue[0];
        sndQueue := sndQueue[1..];
        sndBuf := sndBuf + [Seg(sndNxt, frag, current, current, rxRto, 0, 0)];
        nsndQue := nsndQue - 1;
        nsndBuf := nsndBuf + 1;
        sndNxt := Add(Wrap32, sndNxt, 1);
      }
    }

    /** What the loop of `ikcp_flush` does to one segment in flight. */
    method TouchSeg(seg: Seg, e: Env) returns (fate: Fate, seg': Seg)
      ensures fate == FateOf(seg, e) && seg' == Touch(seg, e)
    {
      fate, seg' := Keep, seg;
      if seg.xmit == 0 {
        fate := First;
        seg' := seg'.(xmit := Inc(seg.xmit));
        seg' := seg'.(rto := e.rto);
        seg' := seg'.(resendts := U32(e.current + seg'.rto + e.rtomin));
      } else if TimeDiff(e.current, seg.resendts) >= 0 {
        fate := Timeout;
        seg' := seg'.(xmit := Inc(seg.xmit));
        if e.nodelay == 0 {
          seg' := seg'.(rto := U32(seg.rto + Max(seg.rto, e.rto)));
        } else {
          var step := if e.nodelay < 2 then ToI32(seg.rto) else e.rto;
          seg' := seg'.(rto := U32(seg.rto + TruncDiv(step, 2)));
        }
        seg' := seg'.(resendts := U32(e.current + seg'.rto));
      } else if seg.fastack >= e.resent {
        if ToI32(seg.xmit) <= e.fastlimit || e.fastlimit <= 0 {
          fate := Fast;
          seg' := seg'.(xmit := Inc(seg.xmit));
          seg' := seg'.(fastack := 0);
          seg' := seg'.(resendts := U32(e.current + seg'.rto));
        }
      }
      if !fate.Keep? {
        seg' := seg'.(ts := e.current);
      }
    }

    /** The body of that loop at position `i`. */
    method FlushSeg(i: nat, ptr: nat, t: Packet, e: Env, ghost pk: Packer, ghost before: seq<seq<byte>>)
      returns (ptr': nat, fate: Fate, ghost pk': Packer)
      requires Valid() && Working(ptr, pk, before)
      requires i < |sndBuf|
      requires FateOf(sndBuf[i], e).Keep?
               || Room(pk.cur, mtu, PushPacket(t, Touch(sndBuf[i], e), e.current), buffer.Length)
      modifies buffer, this`out, this`sndBuf, this`xmit, this`dead
      ensures Valid() && fate == FateOf(old(sndBuf[i]), e)
      ensures sndBuf == old(sndBuf)[i := Touch(old(sndBuf[i]), e)]
      ensures pk' == EmitTouched(pk, mtu, t, old(sndBuf[i]), e) && Working(ptr', pk', before)
      ensures xmit == if fate.Timeout? then Inc(old(xmit)) else old(xmit)
      ensures dead == (old(dead) || (!fate.Keep? && sndBuf[i].xmit >= deadLink))
    {
      hide EncodeAll, EncodeEach, EmitAll, Emit, FateOf, DatagramSize, Room;
      ptr', pk' := ptr, pk;
      var seg;
      fate, seg := TouchSeg(sndBuf[i], e);
      sndBuf := sndBuf[i := seg];
      if fate.Timeout? {
        xmit := Inc(xmit);
      }
      if !fate.Keep? {
        ptr' := EmitSeg(ptr', PushPacket(t, seg, e.current), pk', before);
        pk' := Emit(pk', mtu, PushPacket(t, seg, e.current));
        if seg.xmit >= deadLink {
          dead := true;
        }
      }
    }

    /** The loop of `ikcp_flush` over the segments in flight. */
    method FlushData(ptr: nat, t: Packet, e: Env, ghost pk: Packer, ghost before: seq<seq<byte>>)
      returns (ptr': nat, change: bool, lost: bool, ghost pk': Packer)
      requires Valid() && Working(ptr, pk, before)
      requires Stays(pk, mtu, SweepAll(Sweep([], [], xmit, false, false, dead), t, sndBuf, e, deadLink).packets,
                     buffer.Length)
      modifies buffer, this`out, this`sndBuf, this`xmit, this`dead
      ensures Valid()
      ensures var sw := SweepAll(Sweep([], [], old(xmit), false, false, old(dead)), t, old(sndBuf), e, deadLink);
              && Sweep(sndBuf, sw.packets, xmit, lost, change, dead) == sw
              && pk' == EmitAll(pk, mtu, sw.packets) && Working(ptr', pk', before)
    {
      hide Valid, Working, EncodeAll, EncodeEach, Emit, EmitAll, Sent, Touch, FateOf, SweepAll, EmitTouched, Stays,
        Room;
      ghost var all, sw0 := sndBuf, Sweep([], [], xmit, false, false, dead);
      ghost var sw := sw0;
      SweepNone(sw0, t, all, e, deadLink, pk, mtu);
      ptr', change, lost, pk' := ptr, false, false, pk;
      var i := 0;
      while i < |sndBuf|
        invariant Valid() && 0 <= i <= |all|
        invariant sw == SweepAll(sw0, t, all[..i], e, deadLink) && |sw.buf| == i && sndBuf == sw.buf + all[i..]
        invariant change == sw.change && lost == sw.lost && xmit == sw.xmit && dead == sw.dead
        invariant pk' == EmitAll(pk, mtu, sw.packets) && Working(ptr', pk', before)
      {
        var fate;
        Seqs.UpdateAt(sw.buf, all, i, Touch(all[i], e));
        SweepNext(sw0, t, all, i, e, deadLink, pk, mtu);
        SweepStays(sw0, t, all, i, e, deadLink, pk, mtu, buffer.Length);
        ptr', fate, pk' := FlushSeg(i, ptr', t, e, pk', before);
        sw := SweepAll(sw0, t, all[..i + 1], e, deadLink);
        if fate.Timeout? {
          lost := true;
        } else if fate.Fast? {
          change := true;
        }
        i := i + 1;
      }
      assert all[..i] == all && sndBuf == sw.buf;
    }

    method AfterFast(resent: u32)
      requires Valid()
      modifies this`ssthresh, this`cwnd, this`incr
      ensures Cng() == FastCong(mss, U32(sndNxt - sndUna), resent)
    {
      var inflight := U32(sndNxt - sndUna);
      ssthresh := inflight / 2;
      if ssthresh < THRESH_MIN {
        ssthresh := THRESH_MIN;
      }
      cwnd := U32(ssthresh + resent);
      incr := U32(cwnd * mss);
    }

    method AfterLoss(window: u32)
      requires Valid()
      modifies this`ssthresh, this`cwnd, this`incr
      ensures 0 < mss < HALF && Cng() == LossCong(mss, window)
    {
      ssthresh := window / 2;
      if ssthresh < THRESH_MIN {
        ssthresh := THRESH_MIN;
      }
      cwnd := 1;
      incr := mss;
    }

    /** The end of `ikcp_flush`: the congestion window. */
    method UpdateCwnd(window: u32, resent: u32, change: bool, lost: bool)
      requires Valid()
      modifies this`ssthresh, this`cwnd, this`incr
      ensures Valid()
      ensures Cng() == FlushCong(old(Cng()), mss, U32(sndNxt - sndUna), window, resent, change, lost)
    {
      hide Valid, FastCong, LossCong;
      Sizes();
      if change {
        AfterFast(resent);
      }
      if lost {
        AfterLoss(window);
      }
      if cwnd < 1 {
        cwnd := 1;
        incr := mss;
      }
    }

    /** Everything `ikcp_flush` puts on the wire before the data: acknowledgements and window
        commands.  It empties the acknowledgement list and clears the pending commands. */
    method FlushControl(t: Packet) returns (ptr: nat, ghost pk: Packer)
      requires Valid() && t.ts == 0 && t.sn == 0
      requires var acks, pr := acklist[..ackcount], ProbeTimer(Prb(), current);
               Stays(Packer([], []), mtu, AckPackets(t, acks) + ProbePackets(t, acks, pr.ask, pr.tell), buffer.Length)
      modifies buffer, this`out, this`ackcount, this`probeWait, this`tsProbe, this`ask, this`tell
      ensures Valid() && Rcv() == old(Rcv()).(acks := [])
      ensures Prb() == ProbeTimer(old(Prb()), current).(ask := false, tell := false)
      ensures var acks, pr := old(acklist[..ackcount]), ProbeTimer(old(Prb()), current);
              pk == EmitAll(Packer([], []), mtu, AckPackets(t, acks) + ProbePackets(t, acks, pr.ask, pr.tell))
      ensures Working(ptr, pk, old(out))
    {
      hide EncodeAll, EncodeEach, EmitAll, AckPackets, ProbeTimer, Working, Rcv, Prb, Cfg, Stays;
      ghost var acks, pr := acklist[..ackcount], ProbeTimer(Prb(), current);
      StaysAppend(Packer([], []), mtu, AckPackets(t, acks), ProbePackets(t, acks, pr.ask, pr.tell), buffer.Length);
      ptr, pk := FlushAcks(t);
      var p := LastAck(t);
      ClearAcks();
      EmitAllAppend(Packer([], []), mtu, AckPackets(t, acks), ProbePackets(t, acks, pr.ask, pr.tell));
      ptr, pk := FlushCommands(ptr, p, pk, old(out));
    }

    /** The window commands, timer and all; they are pending no longer. */
    method FlushCommands(ptr: nat, p: Packet, ghost pk: Packer, ghost before: seq<seq<byte>>)
      returns (ptr': nat, ghost pk': Packer)
      requires Valid() && Working(ptr, pk, before)
      requires var pr := ProbeTimer(Prb(), current);
               Stays(pk, mtu, (if pr.ask then [p.(cmd := CMD_WASK)] else [])
                   + (if pr.tell then [p.(cmd := CMD_WINS)] else []),
                     buffer.Length)
      modifies buffer, this`out, this`probeWait, this`tsProbe, this`ask, this`tell
      ensures Valid() && Prb() == ProbeTimer(old(Prb()), current).(ask := false, tell := false)
      ensures var pr := ProbeTimer(old(Prb()), current);
              pk' == EmitAll(pk, mtu, (if pr.ask then [p.(cmd := CMD_WASK)] else [])
                  + (if pr.tell then [p.(cmd := CMD_WINS)] else []))
      ensures Working(ptr', pk', before)
    {
      hide EncodeAll, EncodeEach, EmitAll, ProbeTimer, Working, Stays;
      ProbeWindow();
      ptr', pk' := FlushProbes(ptr, p, pk, before);
      ask, tell := false, false;
    }

    /** The header left over from the last acknowledgement. */
    method LastAck(t: Packet) returns (p: Packet)
      requires Valid() && t.ts == 0 && t.sn == 0
      ensures var a := if ackcount == 0 then Ack(0, 0) else acklist[ackcount - 1]; p == t.(ts := a.ts, sn := a.sn)
    {
      p := if ackcount == 0 then t else t.(ts := acklist[ackcount - 1].ts, sn := acklist[ackcount - 1].sn);
    }

    method ClearAcks()
      requires Valid()
      modifies this`ackcount
      ensures Valid() && Rcv() == old(Rcv()).(acks := [])
    {
      ackcount := 0;
    }

    /** The part of `ikcp_flush` about data: fill the window, pass over what is in flight, send the
        last datagram and adapt the congestion window. */
    method FlushWindow(ptr: nat, t: Packet, window: u32, e: Env, ghost w: DataFlush, ghost pk: Packer,
                       ghost before: seq<seq<byte>>)
      returns (ghost ds: seq<Datagram>)
      requires Valid() && Working(ptr, pk, before) && e.current == current && e.rto == rxRto
      requires w == FlushSend(Wrap32, Cfg(), Snd(), Cng(), window, e, t, xmit, dead)
      requires Stays(pk, mtu, w.packets, buffer.Length)
      modifies buffer, this`out, this`sndQueue, this`nsndQue, this`sndBuf, this`nsndBuf, this`sndNxt,
               this`xmit, this`dead, this`ssthresh, this`cwnd, this`incr
      ensures Valid()
      ensures Snd() == w.snd && Cng() == w.cong && dead == w.dead && xmit == w.xmit
      ensures ds == Sent(EmitAll(pk, mtu, w.packets)) && out == before + EncodeEach(ds)
    {
      hide EncodeAll, EncodeEach, EmitAll, SweepAll, KcpSpec.MoveToBuf, FlushCong, FateOf, Working, Cfg, Cng, Valid,
        Inc, Touch, U32, Sent, Stays;
      ghost var cong := Cng();
      Sizes();
      Linkage();
      MoveToBuf(window);
      ghost var moved, sw := Snd(), SweepAll(Sweep([], [], xmit, false, false, dead), t, sndBuf, e, deadLink);
      ghost var pk1;
      var size, change, lost;
      size, change, lost, pk1 := FlushData(ptr, t, e, pk, before);
      Output(size, pk1, before);
      ds := Sent(pk1);
      assert Cng() == cong;
      UpdateCwnd(window, e.resent, change, lost);
    }

    /** `ikcp_flush` once `ikcp_update` has been called. */
    method FlushUpdated(t: Packet, ghost pr: Probe, ghost w: DataFlush, ghost control: seq<Packet>)
      requires Valid() && t.ts == 0 && t.sn == 0 && pr == ProbeTimer(Prb(), current)
      requires w == FlushSend(Wrap32, Cfg(), Snd(), Cng(), SendWindow(Cfg(), pr, Cng()), EnvOf(Cfg(), rxRto, current),
                              t, xmit, dead)
      requires control == AckPackets(t, acklist[..ackcount]) + ProbePackets(t, acklist[..ackcount], pr.ask, pr.tell)
      requires Stays(Packer([], []), mtu, control + w.packets, buffer.Length)
      modifies buffer, this`out, this`ackcount, this`probeWait, this`tsProbe, this`ask, this`tell,
               this`sndQueue, this`nsndQue, this`sndBuf, this`nsndBuf, this`sndNxt,
               this`xmit, this`dead, this`ssthresh, this`cwnd, this`incr
      ensures Valid() && Rcv() == old(Rcv()).(acks := []) && Prb() == pr.(ask := false, tell := false)
      ensures Snd() == w.snd && Cng() == w.cong && dead == w.dead && xmit == w.xmit
      ensures out == old(out) + EncodeEach(Pack(mtu, control + w.packets))
    {
      hide EncodeAll, EncodeEach, EmitAll, Working, AckPackets, ProbePackets, ProbeTimer, FlushSend, EnvOf, Cfg, Snd,
        Rcv, Prb, Cng, Stays, SendWindow;
      StaysAppend(Packer([], []), mtu, control, w.packets, buffer.Length);
      EmitAllAppend(Packer([], []), mtu, control, w.packets);
      ghost var pk, ds;
      var ptr;
      ptr, pk := FlushControl(t);
      SameWindow(Cfg(), pr, Cng());
      ds := FlushRest(ptr, t, w, pk, old(out));
    }

    /** What follows the window commands. */
    method FlushRest(ptr: nat, t: Packet, ghost w: DataFlush, ghost pk: Packer, ghost before: seq<seq<byte>>)
      returns (ghost ds: seq<Datagram>)
      requires Valid() && Working(ptr, pk, before) && Stays(pk, mtu, w.packets, buffer.Length)
      requires w == FlushSend(Wrap32, Cfg(), Snd(), Cng(), SendWindow(Cfg(), Prb(), Cng()),
                              EnvOf(Cfg(), rxRto, current), t, xmit, dead)
      modifies buffer, this`out, this`sndQueue, this`nsndQue, this`sndBuf, this`nsndBuf, this`sndNxt,
               this`xmit, this`dead, this`ssthresh, this`cwnd, this`incr
      ensures Valid()
      ensures Snd() == w.snd && Cng() == w.cong && dead == w.dead && xmit == w.xmit
      ensures ds == Sent(EmitAll(pk, mtu, w.packets)) && out == before + EncodeEach(ds)
    {
      hide EncodeEach, EmitAll, Working, FlushSend, EnvOf, Cfg, Snd, Prb, Cng, Stays, SendWindow, Valid;
      var window, e := SendLimits();
      ds := FlushWindow(ptr, t, window, e, w, pk, before);
    }

    /** How much `ikcp_flush` may send, and what it goes by. */
    method SendLimits() returns (window: u32, e: Env)
      requires Valid()
      ensures window == SendWindow(Cfg(), Prb(), Cng()) && e == EnvOf(Cfg(), rxRto, current)
      ensures e.current == current && e.rto == rxRto
    {
      window := Min(sndWnd, rmtWnd);
      if nocwnd == 0 {
        window := Min(cwnd, window);
      }
      var resent: u32 := if fastresend > 0 then U32(fastresend) else 0xffff_ffff;
      var rtomin: u32 := if nodelay == 0 then rxRto / 8 else 0;
      e := Env(current, rxRto, rtomin, resent, nodelay, fastlimit);
    }

    /** `ikcp_flush`. */
    method Flush()
      requires Valid() && !Overruns(View())
      modifies buffer, this`out, this`ackcount, this`probeWait, this`tsProbe, this`ask, this`tell,
               this`sndQueue, this`nsndQue, this`sndBuf, this`nsndBuf, this`sndNxt,
               this`xmit, this`dead, this`ssthresh, this`cwnd, this`incr
      ensures Valid()
      ensures View() == KcpSpec.Flush(Wrap32, old(View())).k
      ensures out == old(out) + EncodeEach(Pack(mtu, KcpSpec.Flush(Wrap32, old(View())).packets))
    {
      hide EncodeEach, EmitAll, AckPackets, ProbePackets, ProbeTimer, FlushSend, Pack, Stays, SendWindow, EnvOf,
        Template, KcpSpec.Flush, Cfg, Snd, Rcv, Prb, Cng, Rtts, Clk;
      Timing();
      if !updated {
        NothingFlushed(View());
        NothingSent();
        return;
      }
      var t := MakeTemplate();
      ghost var k, pr := View(), ProbeTimer(Prb(), current);
      ghost var w := FlushSend(Wrap32, Cfg(), Snd(), Cng(), SendWindow(Cfg(), pr, Cng()), EnvOf(Cfg(), rxRto, current),
                               t, xmit, dead);
      FlushIs(k, t, pr, w);
      Sizes();
      FlushUpdated(t, pr, w, AckPackets(t, k.rcv.acks) + ProbePackets(t, k.rcv.acks, pr.ask, pr.tell));
    }

    /** The fields that all segments of one flush share. */
    method MakeTemplate() returns (t: Packet)
      requires Valid()
      ensures t == Template(View()) && t.data == [] && t.ts == 0 && t.sn == 0
      ensures View().rcv.acks == acklist[..ackcount]
    {
      var unused := if nrcvQue < rcvWnd then rcvWnd - nrcvQue else 0;
      t := Packet(conv, CMD_ACK, 0, unused % 0x1_0000, 0, 0, rcvNxt, []);
    }

    // ----- update and check -----

    /** The clock of `ikcp_update`: is a flush due, and when is the next one? */
    method TickClock(now: u32) returns (due: bool)
      requires Valid()
      modifies this`current, this`updated, this`tsFlush
      ensures Valid() && Clk() == Tick(old(Clk()), now, interval) && due == FlushDue(old(Clk()), now)
    {
      hide TimeDiff, U32;
      NoTimeBetween(now);
      current := now;
      if !updated {
        updated := true;
        tsFlush := current;
      }
      var slap := TimeDiff(current, tsFlush);
      if slap >= 10000 || slap < -10000 {
        tsFlush := current;
        slap := 0;
      }
      if slap >= 0 {
        tsFlush := U32(tsFlush + interval);
        if TimeDiff(current, tsFlush) >= 0 {
          tsFlush := U32(current + interval);
        }
      }
      due := slap >= 0;
    }

    /** `ikcp_update`. */
    method Update(now: u32)
      requires Valid() && (FlushDue(Clk(), now) ==> !Overruns(View().(clock := Tick(Clk(), now, interval))))
      modifies this, buffer
      ensures Valid() && buffer == old(buffer) && acklist == old(acklist)
      ensures View() == KcpSpec.Update(Wrap32, old(View()), now).k
      ensures out == old(out) + EncodeEach(Pack(mtu, KcpSpec.Update(Wrap32, old(View()), now).packets))
    {
      hide EncodeEach, KcpSpec.Flush, Pack, Stays, Tick, FlushDue, Snd, Rcv, Prb, Cng, Rtts;
      ghost var k := View();
      var due := TickClock(now);
      assert View() == k.(clock := Tick(k.clock, now, k.cfg.interval));
      if due {
        Flush();
      } else {
        NothingSent();
      }
    }

    /** The loop of `ikcp_check`: the first deadline of a segment in flight, unless one has passed. */
    method FirstDeadline(now: u32) returns (tm: int)
      requires Valid()
      ensures tm > 0 ==> tm == FirstDue(sndBuf, now, 0x7fff_ffff)
      ensures tm <= 0 ==> FirstDue(sndBuf, now, 0x7fff_ffff) <= 0
    {
      hide TimeDiff;
      tm := 0x7fff_ffff;
      var i := 0;
      while i < |sndBuf|
        invariant 0 <= i <= |sndBuf|
        invariant FirstDue(sndBuf[..i], now, 0x7fff_ffff) == tm && tm > 0
      {
        var diff := TimeDiff(sndBuf[i].resendts, now);
        Seqs.SplitAt(sndBuf, i);
        if diff <= 0 {
          FirstDueAtMost(sndBuf, now, 0x7fff_ffff, i);
          return diff;
        }
        if diff < tm {
          tm := diff;
        }
        i := i + 1;
      }
      assert sndBuf[..i] == sndBuf;
    }

    /** `ikcp_check`. */
    method Check(now: u32) returns (due: u32)
      requires Valid()
      ensures due == KcpSpec.Check(View(), now)
    {
      hide TimeDiff, FirstDue;
      NoTimeBetween(now);
      if !updated {
        return now;
      }
      var flushAt := tsFlush;
      if TimeDiff(now, flushAt) >= 10000 || TimeDiff(now, flushAt) < -10000 {
        flushAt := now;
      }
      if TimeDiff(now, flushAt) >= 0 {
        return now;
      }
      StillAhead(flushAt, now);
      var tmFlush := TimeDiff(flushAt, now);
      FirstDueDefault(sndBuf, now, tmFlush);
      var tmPacket := FirstDeadline(now);
      if tmPacket <= 0 {
        return now;
      }
      var minimal := if tmPacket < tmFlush then tmPacket else tmFlush;
      if minimal >= interval {
        minimal := interval;
      }
      due := U32(now + minimal);
    }

    // ----- configuration -----

    /** `ikcp_setmtu`. */
    method SetMtu(mtu: i32) returns (ret: int)
      requires Valid()
      modifies this`mtu, this`mss, this`buffer
      ensures Valid() && Cfg() == Configure(old(Cfg()), KcpSpec.SetMtu(mtu))
      ensures ret == (if mtu < 50 then -1 else 0) && (buffer == old(buffer) || fresh(buffer))
    {
      hide Snd, Rcv, Prb, Cng;
      if mtu < 50 {
        return -1;
      }
      buffer := new byte[U32((mtu + OVERHEAD) * 3)];
      this.mtu := mtu;
      mss := mtu - OVERHEAD;
      ret := 0;
    }

    /** `ikcp_interval`. */
    method SetInterval(interval: i32)
      requires Valid()
      modifies this`interval
      ensures Valid() && Cfg() == Configure(old(Cfg()), KcpSpec.SetInterval(interval))
    {
      this.interval := ClampInterval(interval);
    }

    /** `ikcp_nodelay`. */
    method SetNodelay(nodelay: i32, interval: i32, resend: i32, nc: i32)
      requires Valid()
      modifies this`nodelay, this`rxMinrto, this`interval, this`fastresend, this`nocwnd
      ensures Valid() && Cfg() == Configure(old(Cfg()), KcpSpec.SetNodelay(nodelay, interval, resend, nc))
    {
      hide U32;
      if nodelay >= 0 {
        this.nodelay := U32(nodelay);
        rxMinrto := if nodelay != 0 then RTO_NDL else RTO_MIN;
      }
      if interval >= 0 {
        this.interval := ClampInterval(interval);
      }
      if resend >= 0 {
        fastresend := resend;
      }
      if nc >= 0 {
        nocwnd := nc;
      }
    }

    /** `ikcp_wndsize`. */
    method SetWndsize(snd: i32, rcv: i32)
      requires Valid()
      modifies this`sndWnd, this`rcvWnd
      ensures Valid() && Cfg() == Configure(old(Cfg()), KcpSpec.SetWnd(snd, rcv))
    {
      if snd > 0 {
        sndWnd := U32(snd);
      }
      if rcv > 0 {
        rcvWnd := Max(U32(rcv), WND_RCV);
      }
    }
  }

  lemma NothingSent()
    ensures forall mtu: nat :: Pack(mtu, []) == [] && EncodeEach(Pack(mtu, [])) == []
    ensures forall o: seq<seq<byte>> :: o + [] == o
  {}

  lemma NoTimeBetween(now: u32)
    ensures TimeDiff(now, now) == 0
  {}

  lemma StillAhead(deadline: u32, now: u32)
    requires -10000 <= TimeDiff(now, deadline) < 0
    ensures TimeDiff(deadline, now) > 0
  {}

  lemma {:induction false} FirstDueAtMost(buf: seq<Seg>, now: u32, default: int, i: nat)
    requires i < |buf|
    ensures FirstDue(buf, now, default) <= TimeDiff(buf[i].resendts, now)
  {
    if i < |buf| - 1 {
      FirstDueAtMost(buf[..|buf| - 1], now, default, i);
    }
  }

  /** Starting from the largest difference and taking the minimum at the end is the same as
      starting from the other deadline. */
  lemma {:induction false} FirstDueDefault(buf: seq<Seg>, now: u32, deadline: int)
    requires deadline <= 0x7fff_ffff
    ensures FirstDue(buf, now, deadline) == Min(FirstDue(buf, now, 0x7fff_ffff), deadline)
  {
    if buf != [] {
      FirstDueDefault(buf[..|buf| - 1], now, deadline);
    }
  }

  /** Room for all acknowledgements is room for each when its turn comes. */
  lemma {:induction false} AckStays(t: Packet, acks: seq<Ack>, i: nat, mtu: nat, room: nat)
    requires i < |acks| && Stays(Packer([], []), mtu, AckPackets(t, acks), room)
    ensures Room(EmitAll(Packer([], []), mtu, AckPackets(t, acks[..i])).cur, mtu,
                 t.(ts := acks[i].ts, sn := acks[i].sn), room)
  {
    hide Room, EmitAll;
    var n := |acks| - 1;
    AckPacketsAppend(t, acks[..n], acks[n]);
    StaysAppend(Packer([], []), mtu, AckPackets(t, acks[..n]), [t.(ts := acks[n].ts, sn := acks[n].sn)], room);
    StaysOne(EmitAll(Packer([], []), mtu, AckPackets(t, acks[..n])), mtu, t.(ts := acks[n].ts, sn := acks[n].sn), room);
    Seqs.SplitAt(acks, n);
    if i < n {
      AckStays(t, acks[..n], i, mtu, room);
      assert acks[..n][..i] == acks[..i];
    }
  }

  lemma ProbesStay(pk: Packer, mtu: nat, p: Packet, ask: bool, tell: bool, room: nat)
    requires Stays(pk, mtu, (if ask then [p.(cmd := CMD_WASK)] else []) + (if tell then [p.(cmd := CMD_WINS)] else []),
                   room)
    ensures ask ==> Room(pk.cur, mtu, p.(cmd := CMD_WASK), room)
    ensures tell ==> Room((if ask then Emit(pk, mtu, p.(cmd := CMD_WASK)) else pk).cur, mtu, p.(cmd := CMD_WINS), room)
  {
    hide Room, Stays, Emit;
    var asks, tells := if ask then [p.(cmd := CMD_WASK)] else [], if tell then [p.(cmd := CMD_WINS)] else [];
    StaysAppend(pk, mtu, asks, tells, room);
    StaysOne(pk, mtu, p.(cmd := CMD_WASK), room);
    EmitAllAppend1(pk, mtu, [], p.(cmd := CMD_WASK));
    StaysOne(EmitAll(pk, mtu, asks), mtu, p.(cmd := CMD_WINS), room);
  }

  /** The same for the pass over the segments in flight. */
  lemma {:induction false} SweepStays(sw0: Sweep, t: Packet, all: seq<Seg>, i: nat, e: Env, deadLink: u32, pk: Packer,
                                      mtu: nat, room: nat)
    requires i < |all| && Stays(pk, mtu, SweepAll(sw0, t, all, e, deadLink).packets, room)
    ensures FateOf(all[i], e).Keep? || Room(EmitAll(pk, mtu, SweepAll(sw0, t, all[..i], e, deadLink).packets).cur, mtu,
                                            PushPacket(t, Touch(all[i], e), e.current), room)
  {
    hide Room, EmitAll, FateOf, Touch, PushPacket, Stays;
    var n := |all| - 1;
    var before, p := SweepAll(sw0, t, all[..n], e, deadLink).packets, PushPacket(t, Touch(all[n], e), e.current);
    assert SweepAll(sw0, t, all, e, deadLink).packets == if FateOf(all[n], e).Keep? then before else before + [p];
    StaysAppend(pk, mtu, before, [p], room);
    StaysOne(EmitAll(pk, mtu, before), mtu, p, room);
    if i < n {
      SweepStays(sw0, t, all[..n], i, e, deadLink, pk, mtu, room);
      assert all[..n][..i] == all[..i] && all[..n][i] == all[i];
    }
  }

  ghost function EmitTouched(pk: Packer, mtu: nat, t: Packet, seg: Seg, e: Env): Packer {
    if FateOf(seg, e).Keep? then pk else Emit(pk, mtu, PushPacket(t, Touch(seg, e), e.current))
  }

  lemma SweepNone(sw0: Sweep, t: Packet, all: seq<Seg>, e: Env, deadLink: u32, pk: Packer, mtu: nat)
    ensures SweepAll(sw0, t, all[..0], e, deadLink) == sw0 && EmitAll(pk, mtu, []) == pk
  {}

  lemma SweepNext(sw0: Sweep, t: Packet, all: seq<Seg>, i: nat, e: Env, deadLink: u32, pk: Packer, mtu: nat)
    requires i < |all|
    ensures var sw, sw' := SweepAll(sw0, t, all[..i], e, deadLink), SweepAll(sw0, t, all[..i + 1], e, deadLink);
            && sw'.xmit == (if FateOf(all[i], e).Timeout? then Inc(sw.xmit) else sw.xmit)
            && sw'.dead == (sw.dead || (!FateOf(all[i], e).Keep? && Touch(all[i], e).xmit >= deadLink))
            && sw'.buf == sw.buf + [Touch(all[i], e)]
            && sw'.lost == (sw.lost || FateOf(all[i], e).Timeout?)
            && sw'.change == (sw.change || FateOf(all[i], e).Fast?)
            && EmitAll(pk, mtu, sw'.packets) == EmitTouched(EmitAll(pk, mtu, sw.packets), mtu, t, all[i], e)
  {
    Seqs.SplitAt(all, i);
    EmitAllAppend1(pk, mtu, SweepAll(sw0, t, all[..i], e, deadLink).packets,
                   PushPacket(t, Touch(all[i], e), e.current));
  }

  /** The effect of one segment, part by part. */
  lemma InputSegIs(k: Kcp, p: Packet)
    ensures var k' := InputSeg(Wrap32, k, p);
            var sample, snd1, pr := TimeDiff(k.clock.current, p.ts),
                                    KcpSpec.ShrinkBuf(k.snd.(buf := KcpSpec.ParseUna(Wrap32, k.snd.buf, p.una))),
                                    k.probe.(rmtWnd := p.wnd);
            && k' == k.(snd := k'.snd, rcv := k'.rcv, probe := k'.probe, rtt := k'.rtt)
            && k'.rtt == (if p.cmd == CMD_ACK && sample >= 0 then KcpSpec.UpdateAck(k.cfg, k.rtt, sample) else k.rtt)
            && k'.snd == (if p.cmd == CMD_ACK then KcpSpec.ShrinkBuf(KcpSpec.ParseAck(Wrap32, snd1, p.sn)) else snd1)
            && k'.rcv == (if p.cmd == CMD_PUSH then TakePush(Wrap32, k.rcv, k.cfg.rcvWnd, p) else k.rcv)
            && k'.probe == if p.cmd == CMD_WASK then pr.(tell := true) else pr
  {
    hide TimeDiff, TakePush, KcpSpec.UpdateAck, KcpSpec.ShrinkBuf, KcpSpec.ParseAck, KcpSpec.ParseUna;
  }

  lemma SameWindow(cfg: Config, pr: Probe, cong: Cong)
    ensures SendWindow(cfg, pr.(ask := false, tell := false), cong) == SendWindow(cfg, pr, cong)
  {}

  lemma NothingFlushed(k: Kcp)
    requires !k.clock.updated
    ensures KcpSpec.Flush(Wrap32, k) == FlushResult(k, [])
  {}

  /** A flush, part by part. */
  lemma FlushIs(k: Kcp, t: Packet, pr: Probe, w: DataFlush)
    requires k.clock.updated && t == Template(k) && pr == ProbeTimer(k.probe, k.clock.current)
    requires w == FlushSend(Wrap32, k.cfg, k.snd, k.cong, SendWindow(k.cfg, pr, k.cong),
                            EnvOf(k.cfg, k.rtt.rto, k.clock.current),
                            t, k.xmit, k.dead)
    ensures var f, acks := KcpSpec.Flush(Wrap32, k), k.rcv.acks;
            && f.packets == AckPackets(t, acks) + ProbePackets(t, acks, pr.ask, pr.tell) + w.packets
            && f.k == k.(snd := w.snd, rcv := k.rcv.(acks := []), probe := pr.(ask := false, tell := false),
                         cong := w.cong, dead := w.dead, xmit := w.xmit)
            && forall p :: p in w.packets ==> p in f.packets
  {
    hide FlushSend, AckPackets, ProbePackets, SendWindow, ProbeTimer, EnvOf, Template;
  }

  lemma AckPacketsAppend(t: Packet, acks: seq<Ack>, a: Ack)
    ensures AckPackets(t, acks + [a]) == AckPackets(t, acks) + [t.(ts := a.ts, sn := a.sn)]
  {
    assert (acks + [a])[..|acks|] == acks;
  }

  lemma EmitAllAppend1(pk: Packer, mtu: nat, ps: seq<Packet>, p: Packet)
    ensures EmitAll(pk, mtu, ps + [p]) == Emit(EmitAll(pk, mtu, ps), mtu, p)
  {
    assert (ps + [p])[..|ps|] == ps;
  }
}
