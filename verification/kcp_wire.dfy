/** The segment header on the wire (24 bytes, least significant byte first) and datagrams, which
    are segments laid end to end. */
module Wire {
  import opened SeqNum
  import Seqs

  const OVERHEAD: nat := 24
  const CMD_PUSH: byte := 81
  const CMD_ACK: byte := 82
  const CMD_WASK: byte := 83
  const CMD_WINS: byte := 84

  type u16 = x: int | 0 <= x < 0x1_0000

  /** One segment as it travels.  In the unbounded reading `sn` and `una` may exceed 32 bits. */
  datatype Packet = Packet(conv: u32, cmd: byte, frg: byte, wnd: u16, ts: u32, sn: nat, una: nat,
                           data: seq<byte>)

  type Datagram = seq<Packet>

  /** What `ikcp_input` reads from the first 24 bytes. */
  datatype Header = Header(conv: u32, cmd: byte, frg: byte, wnd: u16, ts: u32, sn: u32, una: u32,
                           len: u32)

  function LE16(n: nat): (r: seq<byte>)
    ensures |r| == 2
  {
    [n % 0x100, n / 0x100 % 0x100]
  }

  function LE32(n: nat): (r: seq<byte>)
    ensures |r| == 4
  {
    LE16(n) + LE16(n / 0x1_0000)
  }

  function Read16(b: seq<byte>, at: nat): u16
    requires at + 2 <= |b|
  {
    b[at] as int + 0x100 * (b[at + 1] as int)
  }

  function Read32(b: seq<byte>, at: nat): u32
    requires at + 4 <= |b|
  {
    Read16(b, at) as int + 0x1_0000 * (Read16(b, at + 2) as int)
  }

  /** `ikcp_encode_seg`, then the payload. */
  function EncodeHeader(p: Packet): (r: seq<byte>)
    ensures |r| == OVERHEAD
  {
    LE32(p.conv) + [p.cmd, p.frg] + LE16(p.wnd) + LE32(p.ts) + LE32(p.sn) + LE32(p.una) + LE32(|p.data|)
  }

  function Encode(p: Packet): (r: seq<byte>)
    ensures |r| == Size(p)
  {
    EncodeHeader(p) + p.data
  }

  function Size(p: Packet): nat { OVERHEAD + |p.data| }

  function DecodeHeader(b: seq<byte>): Header
    requires OVERHEAD <= |b|
  {
    Header(Read32(b, 0), b[4], b[5], Read16(b, 6), Read32(b, 8), Read32(b, 12), Read32(b, 16), Read32(b, 20))
  }

  lemma ReadLE16(n: nat, b: seq<byte>, at: nat)
    requires at + 2 <= |b| && b[at..at + 2] == LE16(n)
    ensures Read16(b, at) == n % 0x1_0000
  {
    assert b[at] == b[at..at + 2][0] && b[at + 1] == b[at..at + 2][1];
    BytesOf16(n);
  }

  lemma BytesOf16(n: nat)
    ensures n % 0x100 + 0x100 * (n / 0x100 % 0x100) == n % 0x1_0000
  {
    var low, high := n % 0x100, n / 0x100;
    var rest := high / 0x100;
    assert n == 0x1_0000 * rest + (0x100 * (high % 0x100) + low);
    Remainder(n, 0x1_0000, rest, 0x100 * (high % 0x100) + low);
  }

  lemma Remainder(n: nat, d: nat, q: nat, r: nat)
    requires r < d && n == d * q + r
    ensures n % d == r
  {
    var k := n / d - q;
    assert r - n % d == d * k;
    MulGrows(d, k);
  }

  lemma MulGrows(d: int, k: int)
    requires d >= 0
    ensures k >= 1 ==> d * k >= d
    ensures k <= -1 ==> d * k <= -d
  {}

  lemma ReadLE32(n: u32, b: seq<byte>, at: nat)
    requires at + 4 <= |b| && b[at..at + 4] == LE32(n)
    ensures Read32(b, at) == n
  {
    assert b[at..at + 2] == b[at..at + 4][..2] && b[at + 2..at + 4] == b[at..at + 4][2..];
    ReadLE16(n, b, at);
    ReadLE16(n / 0x1_0000, b, at + 2);
    WordOfHalves(n);
  }

  lemma WordOfHalves(n: u32)
    ensures n % 0x1_0000 + 0x1_0000 * (n / 0x1_0000 % 0x1_0000) == n
  {
    assert n / 0x1_0000 < 0x1_0000;
  }

  /** Numbers that fit their 32-bit fields. */
  predicate Encodable(p: Packet) {
    p.sn < WORD && p.una < WORD && |p.data| < HALF
  }

  /** The fields of an encoded header, each at its place. */
  lemma FieldSlices(p: Packet, b: seq<byte>)
    requires OVERHEAD <= |b| && b[..OVERHEAD] == EncodeHeader(p)
    ensures b[0..4] == LE32(p.conv) && b[4] == p.cmd && b[5] == p.frg && b[6..8] == LE16(p.wnd)
    ensures b[8..12] == LE32(p.ts) && b[12..16] == LE32(p.sn) && b[16..20] == LE32(p.una)
    ensures b[20..24] == LE32(|p.data|)
  {
    assert forall i, j :: 0 <= i <= j <= 24 ==> b[i..j] == b[..24][i..j];
    var low := LE32(p.conv) + [p.cmd, p.frg] + LE16(p.wnd);
    var high := LE32(p.ts) + LE32(p.sn) + LE32(p.una) + LE32(|p.data|);
    assert b[..24] == low + high;
    assert b[..24][0..8] == low && b[..24][8..24] == high;
    assert b[4] == b[..24][4] && b[5] == b[..24][5];
  }

  /** The number that bytes spell, least significant first. */
  function Value(b: seq<byte>): nat { if b == [] then 0 else b[0] as int + 0x100 * Value(b[1..]) }

  lemma ValueOf16(n: u16)
    ensures Value(LE16(n)) == n
  {
    assert Value(LE16(n)[1..][1..]) == 0;
    assert Value(LE16(n)[1..]) == LE16(n)[1];
    BytesOf16(n);
  }

  lemma ValueOf32(n: u32)
    ensures Value(LE32(n)) == n
  {
    var low, high := n % 0x1_0000, n / 0x1_0000;
    assert n % 0x100 == low % 0x100 && n / 0x100 % 0x100 == low / 0x100 % 0x100;
    assert LE32(n) == LE16(low) + LE16(high);
    ValueOf16(low);
    ValueOf16(high);
    assert LE32(n)[1..][1..] == LE16(high) && Value(LE32(n)[1..][1..]) == high;
    assert Value(LE32(n)) == LE16(low)[0] as int + 0x100 * (LE16(low)[1] as int + 0x100 * high);
    BytesOf16(low);
  }

  /** The header on the wire: 24 bytes, each field at its place with its least significant byte first. */
  lemma HeaderLayout(p: Packet)
    requires Encodable(p)
    ensures var b := EncodeHeader(p);
            && |b| == 24 && Value(b[0..4]) == p.conv && b[4] == p.cmd && b[5] == p.frg && Value(b[6..8]) == p.wnd
            && Value(b[8..12]) == p.ts && Value(b[12..16]) == p.sn && Value(b[16..20]) == p.una
            && Value(b[20..24]) == |p.data|
    ensures Encode(p) == EncodeHeader(p) + p.data
  {
    hide Value;
    FieldSlices(p, EncodeHeader(p));
    ValueOf32(p.conv);
    ValueOf16(p.wnd);
    ValueOf32(p.ts);
    ValueOf32(p.sn);
    ValueOf32(p.una);
    ValueOf32(|p.data|);
  }

  lemma HeaderRoundTrip(p: Packet, b: seq<byte>)
    requires Encodable(p)
    requires OVERHEAD <= |b| && b[..OVERHEAD] == EncodeHeader(p)
    ensures DecodeHeader(b) == Header(p.conv, p.cmd, p.frg, p.wnd, p.ts, p.sn, p.una, |p.data|)
  {
    FieldSlices(p, b);
    ReadLE32(p.conv, b, 0);
    ReadLE16(p.wnd, b, 6);
    ReadLE32(p.ts, b, 8);
    ReadLE32(p.sn, b, 12);
    ReadLE32(p.una, b, 16);
    ReadLE32(|p.data|, b, 20);
  }

  /** Reading back a segment from the front of any buffer gives the segment, and leaves the rest
      of the buffer where it was. */
  lemma PacketRoundTrip(p: Packet, rest: seq<byte>)
    requires Encodable(p)
    ensures var b := Encode(p) + rest;
            && DecodeHeader(b) == Header(p.conv, p.cmd, p.frg, p.wnd, p.ts, p.sn, p.una, |p.data|)
            && b[OVERHEAD..OVERHEAD + |p.data|] == p.data
            && b[OVERHEAD + |p.data|..] == rest
  {
    var b := Encode(p) + rest;
    assert b[..OVERHEAD] == EncodeHeader(p);
    HeaderRoundTrip(p, b);
  }

  function DatagramSize(d: Datagram): nat {
    if d == [] then 0 else DatagramSize(d[..|d| - 1]) + Size(d[|d| - 1])
  }

  /** The bytes of a datagram. */
  function EncodeAll(d: Datagram): (r: seq<byte>)
    ensures |r| == DatagramSize(d)
  {
    if d == [] then [] else EncodeAll(d[..|d| - 1]) + Encode(d[|d| - 1])
  }

  /** A datagram read from its first segment. */
  lemma {:induction false} EncodeAllFront(d: Datagram)
    requires d != []
    ensures EncodeAll(d) == Encode(d[0]) + EncodeAll(d[1..])
  {
    if |d| == 1 {
      assert d[..0] == [] && d[1..] == [];
    } else {
      hide Encode;
      var init, last := d[..|d| - 1], d[|d| - 1];
      EncodeAllFront(init);
      assert init[1..] == d[1..][..|d| - 2];
      Seqs.Assoc(Encode(d[0]), EncodeAll(init[1..]), Encode(last));
    }
  }

  // ----- packing segments into datagrams -----

  /** `ikcp_flush`'s work buffer: datagrams already handed to the output callback, and the
      segments encoded but not yet sent. */
  datatype Packer = Packer(done: seq<Datagram>, cur: Datagram)

  /** Add one segment: send what has accumulated first if the segment would not fit. */
  function Emit(pk: Packer, mtu: nat, p: Packet): Packer {
    if DatagramSize(pk.cur) + Size(p) > mtu
    then Packer(Sent(pk), [p])
    else Packer(pk.done, pk.cur + [p])
  }

  /** `ikcp_output` ignores an empty buffer. */
  function Sent(pk: Packer): seq<Datagram> {
    if pk.cur == [] then pk.done else pk.done + [pk.cur]
  }

  function EmitAll(pk: Packer, mtu: nat, ps: seq<Packet>): Packer {
    if ps == [] then pk else Emit(EmitAll(pk, mtu, ps[..|ps| - 1]), mtu, ps[|ps| - 1])
  }

  /** The datagrams that one flush sends for the segments `ps`. */
  function Pack(mtu: nat, ps: seq<Packet>): seq<Datagram> {
    Sent(EmitAll(Packer([], []), mtu, ps))
  }

  lemma {:induction false} EmitAllAppend(pk: Packer, mtu: nat, ps: seq<Packet>, qs: seq<Packet>)
    ensures EmitAll(pk, mtu, ps + qs) == EmitAll(EmitAll(pk, mtu, ps), mtu, qs)
  {
    if qs == [] {
      assert ps + qs == ps;
    } else {
      EmitAllAppend(pk, mtu, ps, qs[..|qs| - 1]);
      assert (ps + qs)[..|ps + qs| - 1] == ps + qs[..|qs| - 1];
    }
  }

  function Concat(ds: seq<Datagram>): seq<Packet> {
    if ds == [] then [] else Concat(ds[..|ds| - 1]) + ds[|ds| - 1]
  }

  ghost predicate Packed(pk: Packer, mtu: nat) {
    && DatagramSize(pk.cur) <= mtu
    && forall d :: d in pk.done ==> d != [] && DatagramSize(d) <= mtu
  }

  lemma ConcatSent(pk: Packer)
    ensures Concat(Sent(pk)) == Concat(pk.done) + pk.cur
  {
    if pk.cur != [] {
      assert (pk.done + [pk.cur])[..|pk.done|] == pk.done;
    }
  }

  lemma SingleSize(p: Packet)
    ensures DatagramSize([p]) == Size(p)
  {
    assert [p][..0] == [];
  }

  lemma AppendSize(d: Datagram, p: Packet)
    ensures DatagramSize(d + [p]) == DatagramSize(d) + Size(p)
  {
    assert (d + [p])[..|d|] == d;
  }

  lemma ElementOfConcat(ds: seq<Datagram>, d: Datagram, p: Packet)
    requires d in ds && p in d
    ensures p in Concat(ds)
  {
    if ds[|ds| - 1] != d {
      ElementOfConcat(ds[..|ds| - 1], d, p);
    }
  }

  /** Packing neither loses, repeats nor reorders a segment. */
  lemma {:induction false} EmitAllContents(mtu: nat, ps: seq<Packet>)
    ensures var pk := EmitAll(Packer([], []), mtu, ps); Concat(pk.done) + pk.cur == ps
  {
    if ps != [] {
      EmitAllContents(mtu, ps[..|ps| - 1]);
      EmitContents(EmitAll(Packer([], []), mtu, ps[..|ps| - 1]), mtu, ps[|ps| - 1]);
      Seqs.SplitAt(ps, |ps| - 1);
    }
  }

  lemma EmitContents(pk: Packer, mtu: nat, p: Packet)
    ensures var pk' := Emit(pk, mtu, p); Concat(pk'.done) + pk'.cur == (Concat(pk.done) + pk.cur) + [p]
  {
    ConcatSent(pk);
    Seqs.Assoc(Concat(pk.done), pk.cur, [p]);
  }

  /** It respects the MTU if every segment does. */
  lemma {:induction false} EmitAllFits(mtu: nat, ps: seq<Packet>)
    requires forall p :: p in ps ==> Size(p) <= mtu
    ensures Packed(EmitAll(Packer([], []), mtu, ps), mtu)
  {
    if ps != [] {
      EmitAllFits(mtu, ps[..|ps| - 1]);
      EmitFits(EmitAll(Packer([], []), mtu, ps[..|ps| - 1]), mtu, ps[|ps| - 1]);
    }
  }

  lemma EmitFits(pk: Packer, mtu: nat, p: Packet)
    requires Packed(pk, mtu) && Size(p) <= mtu
    ensures Packed(Emit(pk, mtu, p), mtu)
  {
    SingleSize(p);
    AppendSize(pk.cur, p);
  }

  /** What one flush sends: the segments in order, whatever their sizes, and nothing else. */
  lemma PackContents(mtu: nat, ps: seq<Packet>)
    ensures Concat(Pack(mtu, ps)) == ps
    ensures forall d, p :: d in Pack(mtu, ps) && p in d ==> p in ps
  {
    EmitAllContents(mtu, ps);
    ConcatSent(EmitAll(Packer([], []), mtu, ps));
    forall d, p | d in Pack(mtu, ps) && p in d ensures p in ps {
      ElementOfConcat(Pack(mtu, ps), d, p);
    }
  }

  /** If each segment fits the MTU, so does every datagram. */
  lemma PackFits(mtu: nat, ps: seq<Packet>)
    requires forall p :: p in ps ==> Size(p) <= mtu
    ensures forall d :: d in Pack(mtu, ps) ==> d != [] && DatagramSize(d) <= mtu
  {
    EmitAllFits(mtu, ps);
  }

  /** No datagram could have taken the first segment of the next. */
  ghost predicate Tight(ds: seq<Datagram>, mtu: nat) {
    forall i, j :: 0 <= i && j == i + 1 && j < |ds| ==> NoRoom(ds[i], ds[j], mtu)
  }

  predicate NoRoom(d: Datagram, next: Datagram, mtu: nat) { next != [] && DatagramSize(d) + Size(next[0]) > mtu }

  lemma {:induction false} EmitAllTight(mtu: nat, ps: seq<Packet>)
    ensures var pk := EmitAll(Packer([], []), mtu, ps); Tight(Sent(pk), mtu) && (pk.cur == [] ==> pk.done == [])
  {
    if ps != [] {
      EmitAllTight(mtu, ps[..|ps| - 1]);
      EmitTight(EmitAll(Packer([], []), mtu, ps[..|ps| - 1]), mtu, ps[|ps| - 1]);
    }
  }

  lemma EmitTight(pk: Packer, mtu: nat, p: Packet)
    requires Tight(Sent(pk), mtu) && (pk.cur == [] ==> pk.done == [])
    ensures var pk' := Emit(pk, mtu, p); Tight(Sent(pk'), mtu) && pk'.cur != []
  {
    hide DatagramSize;
    var pk' := Emit(pk, mtu, p);
    var ds, ds' := Sent(pk), Sent(pk');
    forall i, j | 0 <= i && j == i + 1 && j < |ds'| ensures NoRoom(ds'[i], ds'[j], mtu) {
      if j < |ds| {
        assert NoRoom(ds[i], ds[j], mtu);
      }
    }
  }

  /** Packing starts a new datagram only when the next segment does not fit the last. */
  lemma PackTight(mtu: nat, ps: seq<Packet>)
    ensures Tight(Pack(mtu, ps), mtu)
  {
    EmitAllTight(mtu, ps);
  }

  // ----- the work buffer -----

  /** From here on the sum of two segment sizes can leave a signed 32-bit integer. */
  const SAFE := 0x4000_0000

  /** Taking one more segment into a work buffer of `room` bytes: the sum that decides about sending first
      is an `int`, and the segment ends inside the buffer. */
  predicate Room(cur: Datagram, mtu: nat, p: Packet, room: nat) {
    && DatagramSize(cur) + Size(p) < HALF
    && (if DatagramSize(cur) + Size(p) > mtu then Size(p) else DatagramSize(cur) + Size(p)) <= room
  }

  /** Packing the segments `ps` behind what is there does so at every step. */
  predicate Stays(pk: Packer, mtu: nat, ps: seq<Packet>, room: nat) {
    ps == [] ||
    (Stays(pk, mtu, ps[..|ps| - 1], room) && Room(EmitAll(pk, mtu, ps[..|ps| - 1]).cur, mtu, ps[|ps| - 1], room))
  }

  lemma {:induction false} StaysAppend(pk: Packer, mtu: nat, ps: seq<Packet>, qs: seq<Packet>, room: nat)
    ensures Stays(pk, mtu, ps + qs, room) <==> Stays(pk, mtu, ps, room) && Stays(EmitAll(pk, mtu, ps), mtu, qs, room)
  {
    hide Room;
    if qs == [] {
      assert ps + qs == ps;
    } else {
      var init := qs[..|qs| - 1];
      StaysAppend(pk, mtu, ps, init, room);
      EmitAllAppend(pk, mtu, ps, init);
      assert (ps + qs)[..|ps + qs| - 1] == ps + init;
    }
  }

  lemma StaysOne(pk: Packer, mtu: nat, p: Packet, room: nat)
    ensures Stays(pk, mtu, [p], room) <==> Room(pk.cur, mtu, p, room)
  {
    hide Room;
    assert [p][..0] == [];
    assert Stays(pk, mtu, [], room) && EmitAll(pk, mtu, []) == pk;
  }

  /** The bytes that a step leaves in the buffer are those that `Room` bounds. */
  lemma RoomIs(pk: Packer, mtu: nat, p: Packet, room: nat)
    ensures Room(pk.cur, mtu, p, room)
       <==> DatagramSize(pk.cur) + Size(p) < HALF && DatagramSize(Emit(pk, mtu, p).cur) <= room
  {
    SingleSize(p);
    AppendSize(pk.cur, p);
  }

  /** With sizes that cannot overflow, a work buffer at least as large as the MTU is left exactly by a
      segment larger than itself. */
  lemma {:induction false} StaysExactly(mtu: nat, ps: seq<Packet>, room: nat)
    requires mtu <= room && mtu < SAFE && forall p :: p in ps ==> Size(p) < SAFE
    ensures Stays(Packer([], []), mtu, ps, room) <==> forall p :: p in ps ==> Size(p) <= room
    ensures DatagramSize(EmitAll(Packer([], []), mtu, ps).cur) < SAFE
  {
    if ps != [] {
      var init, p := ps[..|ps| - 1], ps[|ps| - 1];
      StaysExactly(mtu, init, room);
      RoomIs(EmitAll(Packer([], []), mtu, init), mtu, p, room);
      SingleSize(p);
      AppendSize(EmitAll(Packer([], []), mtu, init).cur, p);
      assert forall q :: q in ps <==> q in init || q == p;
    }
  }

  /** Whatever the sizes, no segment may exceed the room. */
  lemma {:induction false} StaysSizes(pk: Packer, mtu: nat, ps: seq<Packet>, room: nat)
    requires Stays(pk, mtu, ps, room)
    ensures forall p :: p in ps ==> Size(p) <= room
  {
    if ps != [] {
      StaysSizes(pk, mtu, ps[..|ps| - 1], room);
      assert forall q :: q in ps <==> q in ps[..|ps| - 1] || q == ps[|ps| - 1];
    }
  }

  /** Two segments of 2^30 bytes or more that fit the MTU already leave the signed sum. */
  lemma LargePair(mtu: nat, p: Packet, q: Packet, room: nat)
    requires SAFE <= Size(p) <= mtu && SAFE <= Size(q)
    ensures !Stays(Packer([], []), mtu, [p, q], room)
  {
    StaysAppend(Packer([], []), mtu, [p], [q], room);
    assert [p] + [q] == [p, q];
    assert [p][..0] == [];
    assert EmitAll(Packer([], []), mtu, [p]) == Emit(Packer([], []), mtu, p);
    assert [] + [p] == [p];
    StaysOne(Packer([], [p]), mtu, q, room);
    SingleSize(p);
  }
}
