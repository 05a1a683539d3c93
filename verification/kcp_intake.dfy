/** How an input reads its bytes: segments one after another, and how it ends. */
module KcpIntake {
  import opened SeqNum
  import opened Wire
  import opened KcpSpec
  import opened KcpReplies
  import Seqs

  /** The control block after segments taken one after another. */
  function Segments(ar: Arith, k: Kcp, d: Datagram): Kcp
    decreases |d|
  {
    if d == [] then k else Segments(ar, InputSeg(ar, k, d[0]), d[1..])
  }

  /** Segments of this conversation that the protocol knows. */
  predicate Proper(conv: u32, d: Datagram) {
    forall p :: p in d ==> Encodable(p) && p.conv == conv && KnownCmd(p.cmd)
  }

  /** Why an input ends in front of some bytes: too few are left for a header, the conversation is another's,
      the payload is cut off, or the command is unknown. */
  datatype Ending = Complete | Foreign | Truncated | Unknown

  predicate Stops(conv: u32, rest: seq<byte>, why: Ending) {
    if |rest| < OVERHEAD then why.Complete?
    else
      var h := DecodeHeader(rest);
      match why
      case Complete => false
      case Foreign => h.conv != conv
      case Truncated => h.conv == conv && (h.len > |rest| - OVERHEAD || h.len >= HALF)
      case Unknown => h.conv == conv && h.len <= |rest| - OVERHEAD && h.len < HALF
                      && h.cmd !in {CMD_PUSH, CMD_ACK, CMD_WASK, CMD_WINS}
  }

  /** Reading back two and four bytes, and writing them again. */
  lemma WriteRead16(b: seq<byte>, at: nat)
    requires at + 2 <= |b|
    ensures LE16(Read16(b, at)) == b[at..at + 2]
  {}

  lemma WriteRead32(b: seq<byte>, at: nat)
    requires at + 4 <= |b|
    ensures LE32(Read32(b, at)) == b[at..at + 4]
  {
    hide LE16, Read16;
    WriteRead16(b, at);
    WriteRead16(b, at + 2);
    var low, high := Read16(b, at), Read16(b, at + 2);
    assert Read32(b, at) == low as int + 0x1_0000 * (high as int);
    HalvesOfWord(low, high);
    assert b[at..at + 2] + b[at + 2..at + 4] == b[at..at + 4];
  }

  lemma HalvesOfWord(low: u16, high: u16)
    ensures LE16(low + 0x1_0000 * high) == LE16(low) && (low + 0x1_0000 * high) / 0x1_0000 == high
  {
    var n := low + 0x1_0000 * high;
    assert n / 0x100 == low / 0x100 + 0x100 * high;
  }

  /** The bytes of a segment are those that it was read from. */
  lemma Rewritten(b: seq<byte>)
    requires OVERHEAD <= |b| && DecodeHeader(b).len <= |b| - OVERHEAD
    ensures var h := DecodeHeader(b);
            Encode(PacketOf(h, b[OVERHEAD..OVERHEAD + h.len])) == b[..OVERHEAD + h.len]
  {
    hide LE16, LE32, Read16, Read32;
    var h := DecodeHeader(b);
    WriteRead32(b, 0);
    WriteRead16(b, 6);
    WriteRead32(b, 8);
    WriteRead32(b, 12);
    WriteRead32(b, 16);
    WriteRead32(b, 20);
    assert b[0..4] + [b[4], b[5]] + b[6..8] + b[8..12] + b[12..16] + b[16..20] + b[20..24] == b[..24];
    assert b[..24] + b[24..24 + h.len] == b[..24 + h.len];
  }

  /** Every input is proper segments followed by what ends it. */
  lemma {:induction false} Splits(conv: u32, b: seq<byte>) returns (d: Datagram, rest: seq<byte>, why: Ending)
    ensures b == EncodeAll(d) + rest && Proper(conv, d) && Stops(conv, rest, why)
    decreases |b|
  {
    hide DecodeHeader, Encode, EncodeAll, Encodable;
    if |b| < OVERHEAD {
      d, rest, why := [], b, Complete;
      NoBytes(b);
    } else {
      var h := DecodeHeader(b);
      if h.conv == conv && h.len <= |b| - OVERHEAD && h.len < HALF && KnownCmd(h.cmd) {
        var p, tail := PacketOf(h, b[OVERHEAD..OVERHEAD + h.len]), b[OVERHEAD + h.len..];
        Rewritten(b);
        assert Encodable(p) by { HeaderFits(h, p); }
        var d1;
        d1, rest, why := Splits(conv, tail);
        d := [p] + d1;
        EncodeAllFront(d);
        assert d[1..] == d1;
        Seqs.Assoc(Encode(p), EncodeAll(d1), rest);
        assert b == b[..OVERHEAD + h.len] + tail;
      } else {
        d, rest := [], b;
        why := if h.conv != conv then Foreign else if h.len > |b| - OVERHEAD || h.len >= HALF then Truncated
            else Unknown;
        NoBytes(b);
      }
    }
  }

  lemma HeaderFits(h: Header, p: Packet)
    requires h.len < HALF && |p.data| == h.len && p.sn == h.sn && p.una == h.una
    ensures Encodable(p)
  {}

  lemma NoBytes(b: seq<byte>)
    ensures EncodeAll([]) + b == b
  {}

  /** And it takes them in order, one after another: only an input that ends after a whole segment also counts
      what its acknowledgements skipped and opens the window, and gives 0; what has been taken before an end of
      another kind stays taken, and the result tells which kind. */
  lemma {:induction false} InputTakes(ar: Arith, k: Kcp, d: Datagram, rest: seq<byte>, why: Ending, prevUna: nat,
                                      newest: Newest)
    requires Proper(k.cfg.conv, d) && Stops(k.cfg.conv, rest, why)
    ensures InputBytes(ar, k, EncodeAll(d) + rest, prevUna, newest) ==
              match why
              case Complete => InputResult(FinishInput(ar, Segments(ar, k, d), prevUna, NewestOf(ar, newest, d)), 0)
              case Foreign => InputResult(Segments(ar, k, d), -1)
              case Truncated => InputResult(Segments(ar, k, d), -2)
              case Unknown => InputResult(Segments(ar, k, d), -3)
    decreases |d|
  {
    hide DecodeHeader, Encode, EncodeAll, Encodable, InputSeg, FinishInput, NewestAfter, ToI32;
    if d == [] {
      NoBytes(rest);
      EndsHere(ar, k, rest, why, prevUna, newest);
    } else {
      var p, tail := d[0], EncodeAll(d[1..]) + rest;
      EncodeAllFront(d);
      Seqs.Assoc(Encode(p), EncodeAll(d[1..]), rest);
      PacketRoundTrip(p, tail);
      SmallData(p);
      SegmentConfig(ar, k, p);
      InputTakes(ar, InputSeg(ar, k, p), d[1..], rest, why, prevUna, NewestAfter(ar, newest, p));
    }
  }

  lemma SmallData(p: Packet)
    requires Encodable(p)
    ensures ToI32(|p.data|) == |p.data|
  {}

  lemma SegmentConfig(ar: Arith, k: Kcp, p: Packet)
    ensures InputSeg(ar, k, p).cfg == k.cfg
  {}

  lemma EndsHere(ar: Arith, k: Kcp, rest: seq<byte>, why: Ending, prevUna: nat, newest: Newest)
    requires Stops(k.cfg.conv, rest, why)
    ensures InputBytes(ar, k, rest, prevUna, newest) ==
              match why
              case Complete => InputResult(FinishInput(ar, k, prevUna, newest), 0)
              case Foreign => InputResult(k, -1)
              case Truncated => InputResult(k, -2)
              case Unknown => InputResult(k, -3)
  {
    hide DecodeHeader, InputSeg, FinishInput;
    if |rest| >= OVERHEAD {
      SignOf(DecodeHeader(rest).len);
    }
  }

  lemma SignOf(n: u32)
    ensures ToI32(n) < 0 <==> n >= HALF
  {}

  /** `ikcp_input` refuses less than one header at once; otherwise it reads as above, and what moves the window
      is that `snd_una` has moved since the input began. */
  lemma InputReads(ar: Arith, k: Kcp, b: seq<byte>) returns (d: Datagram, rest: seq<byte>, why: Ending)
    requires |b| < HALF
    ensures b == EncodeAll(d) + rest && Proper(k.cfg.conv, d) && Stops(k.cfg.conv, rest, why)
    ensures Input(ar, k, b) ==
              if |b| < OVERHEAD then InputResult(k, -1)
              else
                match why
                case Complete =>
                  InputResult(FinishInput(ar, Segments(ar, k, d), k.snd.una, NewestOf(ar, NoAck, d)), 0)
                case Foreign => InputResult(Segments(ar, k, d), -1)
                case Truncated => InputResult(Segments(ar, k, d), -2)
                case Unknown => InputResult(Segments(ar, k, d), -3)
  {
    hide InputBytes, EncodeAll, Proper, Stops, FinishInput, Segments, NewestOf;
    d, rest, why := Splits(k.cfg.conv, b);
    InputTakes(ar, k, d, rest, why, k.snd.una, NoAck);
  }
}
