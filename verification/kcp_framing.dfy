/** Messages and the pieces they travel in. */
module KcpFraming {
  import opened SeqNum
  import opened KcpSpec
  import opened Products
  import Seqs

  function Payload(fs: seq<Frag>): seq<byte> {
    if fs == [] then [] else Payload(fs[..|fs| - 1]) + fs[|fs| - 1].data
  }

  /** Reading pieces in order: the messages completed and the bytes of the one still open. */
  datatype Parse = Parse(done: seq<seq<byte>>, open: seq<byte>)

  function Take(p: Parse, f: Frag): Parse {
    if f.frg == 0 then Parse(p.done + [p.open + f.data], []) else Parse(p.done, p.open + f.data)
  }

  function ParseAll(p: Parse, fs: seq<Frag>): Parse {
    if fs == [] then p else Take(ParseAll(p, fs[..|fs| - 1]), fs[|fs| - 1])
  }

  function Flatten(ms: seq<seq<byte>>): seq<byte> {
    if ms == [] then [] else Flatten(ms[..|ms| - 1]) + ms[|ms| - 1]
  }

  /** Fragment numbers count down to zero, message after message. */
  ghost predicate Framed(fs: seq<Frag>) {
    forall i :: 0 <= i < |fs| && fs[i].frg > 0 ==> i + 1 < |fs| && fs[i + 1].frg == fs[i].frg - 1
  }

  /** Fragment numbers fit their field; a message has at most 127 pieces. */
  ghost predicate Small(fs: seq<Frag>) {
    forall i :: 0 <= i < |fs| ==> fs[i].frg < WND_RCV - 1
  }

  lemma {:induction false} PayloadAppend(a: seq<Frag>, b: seq<Frag>)
    ensures Payload(a + b) == Payload(a) + Payload(b)
  {
    if b == [] {
      assert a + b == a;
    } else {
      PayloadAppend(a, b[..|b| - 1]);
      assert (a + b)[..|a + b| - 1] == a + b[..|b| - 1];
      Seqs.Assoc(Payload(a), Payload(b[..|b| - 1]), b[|b| - 1].data);
    }
  }

  lemma {:induction false} ParseAppend(p: Parse, a: seq<Frag>, b: seq<Frag>)
    ensures ParseAll(p, a + b) == ParseAll(ParseAll(p, a), b)
  {
    if b == [] {
      assert a + b == a;
    } else {
      ParseAppend(p, a, b[..|b| - 1]);
      assert (a + b)[..|a + b| - 1] == a + b[..|b| - 1];
    }
  }

  /** Later pieces never change the messages already complete. */
  lemma {:induction false} ParseGrows(p: Parse, fs: seq<Frag>)
    ensures p.done <= ParseAll(p, fs).done
  {
    if fs != [] {
      ParseGrows(p, fs[..|fs| - 1]);
    }
  }

  lemma FlattenAppend1(ms: seq<seq<byte>>, m: seq<byte>)
    ensures Flatten(ms + [m]) == Flatten(ms) + m
  {
    assert (ms + [m])[..|ms|] == ms;
  }

  lemma ParseOne(p: Parse, f: Frag)
    ensures ParseAll(p, [f]) == Take(p, f) && Payload([f]) == f.data
  {
    assert [f][..0] == [];
  }

  lemma NoPayload()
    ensures Payload([]) == []
  {}

  // ----- cutting -----

  /** Enough pieces for the message, and not one more than needed. */
  lemma FragCountFits(len: nat, mss: nat)
    requires mss > 0
    ensures var n := FragCount(len, mss); n >= 1 && len <= n * mss && (n - 1) * mss < Max(len, 1)
  {
    if len > mss {
      var n := FragCount(len, mss);
      assert n * mss <= len + mss - 1 < n * mss + mss;
      assert n * mss >= mss;
      assert (n - 1) * mss == n * mss - mss;
    }
  }

  /** A cut keeps every byte, in pieces no longer than `mss`, framed by falling numbers. */
  lemma {:induction false} CutShape(mss: nat, data: seq<byte>, count: nat, stream: bool)
    requires |data| <= count * mss
    ensures var c := Cut(mss, data, count, stream);
            && |c| == count && Payload(c) == data
            && (forall i :: 0 <= i < count ==> |c[i].data| <= mss && c[i].frg == if stream then 0 else count - 1 - i)
    decreases count
  {
    hide Payload, ParseAll;
    if count == 0 {
      NoPayload();
    } else {
      var size := Min(|data|, mss);
      LessOne(|data|, count, mss);
      CutShape(mss, data[size..], count - 1, stream);
      var f := Frag(if stream then 0 else count - 1, data[..size]);
      PayloadAppend([f], Cut(mss, data[size..], count - 1, stream));
      ParseOne(Parse([], []), f);
      assert data == data[..size] + data[size..];
    }
  }

  lemma LessOne(len: nat, count: nat, mss: nat)
    requires count > 0 && len <= count * mss
    ensures len - Min(len, mss) <= (count - 1) * mss
  {
    assert (count - 1) * mss == count * mss - mss;
    assert 0 <= (count - 1) * mss;
  }

  /** Reading a cut message back completes exactly that message. */
  lemma {:induction false} CutParses(p: Parse, mss: nat, data: seq<byte>, count: nat)
    requires 0 < count && |data| <= count * mss
    ensures ParseAll(p, Cut(mss, data, count, false)) == Parse(p.done + [p.open + data], [])
    decreases count
  {
    var size := Min(|data|, mss);
    var f := Frag(count - 1, data[..size]);
    var rest := Cut(mss, data[size..], count - 1, false);
    ParseOne(p, f);
    ParseAppend(p, [f], rest);
    LessOne(|data|, count, mss);
    assert data == data[..size] + data[size..];
    if count == 1 {
      assert rest == [] && data[..size] == data;
    } else {
      CutParses(Take(p, f), mss, data[size..], count - 1);
      Seqs.Assoc(p.open, data[..size], data[size..]);
    }
  }

  // ----- ikcp_send -----

  /** A log of pieces, sent ones first and then the queued ones. */
  ghost predicate LogOk(log: seq<Frag>) {
    Framed(log) && Small(log)
  }

  lemma FramedAppend(a: seq<Frag>, b: seq<Frag>)
    requires Framed(a) && Framed(b)
    ensures Framed(a + b)
  {
    assert forall i :: 0 <= i < |a| && a[i].frg > 0 ==> (a + b)[i + 1] == a[i + 1];
  }

  /** Appending to the last piece in stream mode adds the bytes to the queued ones and keeps the
      framing, since a message ends there anyway. */
  lemma StreamExtendOk(cfg: Config, before: seq<Frag>, queue: seq<Frag>, data: seq<byte>)
    requires LogOk(before + queue)
    ensures var q, n := StreamExtend(cfg, queue, data), StreamRoom(cfg, queue, |data|);
            LogOk(before + q) && Payload(q) == Payload(queue) + data[..n]
  {
    var q, n := StreamExtend(cfg, queue, data), StreamRoom(cfg, queue, |data|);
    if cfg.stream != 0 && queue != [] && |queue[|queue| - 1].data| < cfg.Mss() {
      var init, last := queue[..|queue| - 1], queue[|queue| - 1];
      assert q[..|q| - 1] == init;
      Seqs.Assoc(Payload(init), last.data, data[..n]);
      var log, log' := before + queue, before + q;
      assert forall i :: 0 <= i < |log| - 1 ==> log'[i] == log[i];
      assert log[|log| - 1].frg == 0 == log'[|log| - 1].frg;
    } else {
      assert Payload(queue) + data[..0] == Payload(queue);
    }
  }

  /** More than 127 pieces are needed exactly for more than 127 full pieces of data. */
  lemma RefusalBound(len: nat, mss: nat)
    requires mss > 0
    ensures FragCount(len, mss) >= WND_RCV <==> len > (WND_RCV - 1) * mss
  {
    FragCountFits(len, mss);
    var n := FragCount(len, mss);
    if n >= WND_RCV {
      MulMono(WND_RCV - 1, n - 1, mss);
    } else {
      MulMono(n, WND_RCV - 1, mss);
    }
  }

  /** What `ikcp_send` cuts off a buffer. */
  lemma CutOk(mss: nat, data: seq<byte>, stream: bool)
    requires mss > 0
    ensures var c := Cut(mss, data, FragCount(|data|, mss), stream);
            && Payload(c) == data && Framed(c) && (FragCount(|data|, mss) < WND_RCV ==> Small(c))
            && forall i :: 0 <= i < |c| ==> |c[i].data| <= mss
  {
    FragCountFits(|data|, mss);
    CutShape(mss, data, FragCount(|data|, mss), stream);
  }

  /** A result `ret >= 0` appends exactly the first `ret` bytes of the buffer to the queued ones,
      in framed pieces; -2 changes nothing.  Outside stream mode the message is refused exactly when
      it needs more than 127 pieces. */
  lemma SendConserves(cfg: Config, before: seq<Frag>, queue: seq<Frag>, data: seq<byte>)
    requires LogOk(before + queue)
    ensures var r := Send(cfg, queue, data);
            && (r.ret == -2 || 0 <= r.ret <= |data|)
            && LogOk(before + r.queue)
            && (r.ret >= 0 ==> Payload(r.queue) == Payload(queue) + data[..r.ret])
            && (r.ret == -2 ==> r.queue == queue)
    ensures cfg.stream == 0 ==> (Send(cfg, queue, data).ret == -2 <==> |data| > (WND_RCV - 1) * cfg.Mss())
  {
    hide FragCount, Cut, Payload, Framed, Small;
    var sent := StreamRoom(cfg, queue, |data|);
    var q1 := StreamExtend(cfg, queue, data);
    var mss := cfg.Mss();
    StreamExtendOk(cfg, before, queue, data);
    RefusalBound(|data| - sent, mss);
    CutOk(mss, data[sent..], cfg.stream != 0);
    var c := Cut(mss, data[sent..], FragCount(|data| - sent, mss), cfg.stream != 0);
    FramedAppend(before + q1, c);
    PayloadAppend(q1, c);
    SmallAppend(before + q1, c);
    Seqs.Assoc(before, q1, c);
    assert data[..sent] + data[sent..] == data && data[..|data|] == data;
    Seqs.Assoc(Payload(queue), data[..sent], data[sent..]);
  }

  lemma SmallAppend(a: seq<Frag>, b: seq<Frag>)
    requires Small(a)
    ensures Small(b) ==> Small(a + b)
  {}

  /** No piece outgrows a bound that holds of the queue and of the segment size. */
  lemma SendSizes(cfg: Config, queue: seq<Frag>, data: seq<byte>, bound: nat)
    requires cfg.Mss() <= bound && forall i :: 0 <= i < |queue| ==> |queue[i].data| <= bound
    ensures var q := Send(cfg, queue, data).queue; forall i :: 0 <= i < |q| ==> |q[i].data| <= bound
  {
    hide FragCount, Cut;
    var sent := StreamRoom(cfg, queue, |data|);
    CutOk(cfg.Mss(), data[sent..], cfg.stream != 0);
  }

  /** Outside stream mode an accepted buffer becomes one more message. */
  lemma SendParses(cfg: Config, before: seq<Frag>, queue: seq<Frag>, data: seq<byte>, accepted: seq<seq<byte>>)
    requires cfg.stream == 0 && ParseAll(Parse([], []), before + queue) == Parse(accepted, [])
    ensures var r := Send(cfg, queue, data);
            ParseAll(Parse([], []), before + r.queue) == Parse(if r.ret >= 0 then accepted + [data] else accepted, [])
  {
    var r := Send(cfg, queue, data);
    if r.ret >= 0 {
      var c := Cut(cfg.Mss(), data, FragCount(|data|, cfg.Mss()), false);
      assert data[0..] == data;
      FragCountFits(|data|, cfg.Mss());
      Seqs.Assoc(before, queue, c);
      ParseAppend(Parse([], []), before + queue, c);
      CutParses(Parse(accepted, []), cfg.Mss(), data, FragCount(|data|, cfg.Mss()));
      assert [] + data == data;
    }
  }

  lemma OneLess(n: nat, mss: nat)
    requires n > 0
    ensures n * mss == (n - 1) * mss + mss && 0 <= (n - 1) * mss
  {}

  /** All pieces of a cut but the last are full. */
  lemma {:induction false} CutFull(mss: nat, data: seq<byte>, count: nat, stream: bool)
    requires 0 < mss && (count > 0 ==> (count - 1) * mss <= |data|)
    ensures |Cut(mss, data, count, stream)| == count
    ensures forall i :: 0 <= i < count - 1 ==> |Cut(mss, data, count, stream)[i].data| == mss
    decreases count
  {
    if count > 1 {
      OneLess(count - 1, mss);
      CutFull(mss, data[mss..], count - 1, stream);
    }
  }

  /** Every piece but the last is full. */
  ghost predicate Full(queue: seq<Frag>, mss: nat) {
    && (forall i :: 0 <= i < |queue| - 1 ==> |queue[i].data| == mss)
    && (queue != [] ==> |queue[|queue| - 1].data| <= mss)
  }

  /** How many bytes the last queued piece can still take in stream mode. */
  function Space(cfg: Config, queue: seq<Frag>): nat {
    if cfg.stream == 0 || queue == [] || |queue[|queue| - 1].data| >= cfg.Mss() then 0
    else cfg.Mss() - |queue[|queue| - 1].data|
  }

  /** In stream mode a send fills the last piece first, so that no space is wasted: if every queued piece but
      the last is full they are so afterwards.  What does not fit it goes into at most 127 pieces more; if
      it needs more than that, only the first part is taken, or nothing if there is none. */
  lemma StreamPacks(cfg: Config, queue: seq<Frag>, data: seq<byte>)
    requires cfg.stream != 0
    ensures var r, space := Send(cfg, queue, data), Space(cfg, queue);
            && (Full(queue, cfg.Mss()) ==> Full(r.queue, cfg.Mss()))
            && r.ret == if |data| <= space || |data| - space <= (WND_RCV - 1) * cfg.Mss() then |data|
                        else if space > 0 then space else -2
  {
    hide FragCount, Cut;
    var mss, sent := cfg.Mss(), StreamRoom(cfg, queue, |data|);
    var q1 := StreamExtend(cfg, queue, data);
    RefusalBound(|data| - sent, mss);
    FragCountFits(|data| - sent, mss);
    var count := FragCount(|data| - sent, mss);
    if |data| > sent {
      CutFull(mss, data[sent..], count, true);
      CutOk(mss, data[sent..], true);
      if Full(queue, mss) {
        FullAppend(q1, Cut(mss, data[sent..], count, true), mss);
      }
    }
  }

  lemma FullAppend(a: seq<Frag>, b: seq<Frag>, mss: nat)
    requires Full(a, mss) && (a != [] ==> |a[|a| - 1].data| == mss)
    requires b != [] && Full(b, mss)
    ensures Full(a + b, mss)
  {}

  /** In message mode a message starts a piece of its own and takes no more pieces than it needs. */
  lemma MessagePacks(cfg: Config, queue: seq<Frag>, data: seq<byte>)
    requires cfg.stream == 0
    ensures var r, mss := Send(cfg, queue, data), cfg.Mss();
            if |data| > (WND_RCV - 1) * mss then r == SendResult(queue, -2)
            else
              && r.ret == |data| && |queue| < |r.queue| && r.queue[..|queue|] == queue
              && Full(r.queue[|queue|..], mss) && Payload(r.queue[|queue|..]) == data
              && (forall i :: |queue| <= i < |r.queue| ==> r.queue[i].frg == |r.queue| - 1 - i)
              && (data != [] ==> r.queue[|r.queue| - 1].data != [])
  {
    hide FragCount, Cut;
    var mss := cfg.Mss();
    var count := FragCount(|data|, mss);
    RefusalBound(|data|, mss);
    FragCountFits(|data|, mss);
    assert data[0..] == data;
    CutFull(mss, data, count, false);
    CutShape(mss, data, count, false);
    var c := Cut(mss, data, count, false);
    assert (queue + c)[|queue|..] == c && (queue + c)[..|queue|] == queue;
    if data != [] {
      LastNotEmpty(mss, data, count);
    }
  }

  lemma {:induction false} LastNotEmpty(mss: nat, data: seq<byte>, count: nat)
    requires 0 < mss && 0 < count && (count - 1) * mss < |data|
    ensures |Cut(mss, data, count, false)| == count && Cut(mss, data, count, false)[count - 1].data != []
    decreases count
  {
    if count > 1 {
      OneLess(count - 1, mss);
      LastNotEmpty(mss, data[mss..], count - 1);
    }
  }

  // ----- ikcp_recv -----

  function Frags(items: seq<Item>): (fs: seq<Frag>)
    ensures |fs| == |items| && forall i :: 0 <= i < |items| ==> fs[i] == items[i].frag
  {
    seq(|items|, i requires 0 <= i < |items| => items[i].frag)
  }

  lemma {:induction false} ItemBytesPayload(items: seq<Item>)
    ensures ItemBytes(items) == Payload(Frags(items))
  {
    if items != [] {
      ItemBytesPayload(items[..|items| - 1]);
      assert Frags(items)[..|items| - 1] == Frags(items[..|items| - 1]);
    }
  }

  /** In a framed log the number of the piece at the front says where its message ends. */
  lemma {:induction false} FrontMessage(log: seq<Frag>, queue: seq<Item>, from: nat)
    requires Framed(log) && from + |queue| <= |log| && queue != []
    requires forall i :: 0 <= i < |queue| ==> queue[i].frag == log[from + i]
    ensures MergeCount(queue) == Min(queue[0].frag.frg + 1, |queue|)
    ensures queue[0].frag.frg < |queue| ==> queue[queue[0].frag.frg].frag.frg == 0
    ensures forall i :: 0 <= i <= queue[0].frag.frg && i < |queue| ==> queue[i].frag.frg == queue[0].frag.frg - i
  {
    if queue[0].frag.frg > 0 && |queue| > 1 {
      assert queue[1].frag == log[from + 1];
      FrontMessage(log, queue[1..], from + 1);
      assert forall i :: 1 <= i < |queue| ==> queue[i] == queue[1..][i - 1];
    }
  }

  /** Reading the pieces of one message, the last of them numbered zero. */
  lemma {:induction false} MessageParses(p: Parse, fs: seq<Frag>)
    requires fs != [] && fs[|fs| - 1].frg == 0
    requires forall i :: 0 <= i < |fs| - 1 ==> fs[i].frg > 0
    ensures ParseAll(p, fs) == Parse(p.done + [p.open + Payload(fs)], [])
  {
    OpenParses(p, fs[..|fs| - 1]);
    Seqs.Assoc(p.open, Payload(fs[..|fs| - 1]), fs[|fs| - 1].data);
  }

  lemma {:induction false} OpenParses(p: Parse, fs: seq<Frag>)
    requires forall i :: 0 <= i < |fs| ==> fs[i].frg > 0
    ensures ParseAll(p, fs) == Parse(p.done, p.open + Payload(fs))
  {
    if fs != [] {
      OpenParses(p, fs[..|fs| - 1]);
      Seqs.Assoc(p.open, Payload(fs[..|fs| - 1]), fs[|fs| - 1].data);
    } else {
      assert p.open + [] == p.open;
    }
  }
}
