/** Framing of Ethernet packets (src/plan9_ether4330.c: txstart, wlreadpkt and the
    channel-2 branch of rproc; src/etherif.c: allocb, padblock): the header the
    transmitter puts in front of a packet is the one the receiver takes off. */
module SdpcmFrame {
  import opened Common
  import opened Arith
  import opened BitField
  import opened SdioCard

  // ---------------------------------------------------------------- the format

  /** put2 of an int passed as a short: its two low bytes. */
  function Put2(v: int): (r: seq<byte>)
    ensures |r| == 2
  {
    [v % 0x100, v / 0x100 % 0x100]
  }

  function Get2(s: seq<byte>): nat
    requires |s| >= 2
  {
    (s[0] as int) + 0x100 * (s[1] as int)
  }

  lemma Get2Put2(v: int)
    ensures Get2(Put2(v)) == v % 0x10000
  {
    var q := v / 0x100;
    assert v == q / 0x100 * 0x10000 + (q % 0x100 * 0x100 + v % 0x100);
    Cut(v, 0x10000, q / 0x100, q % 0x100 * 0x100 + v % 0x100);
  }

  function Complement(v: int): int { -1 - v }

  /** `lenck` is the complement of the length in 16 bits. */
  lemma ComplementCheck(len: int)
    ensures Get2(Put2(Complement(len))) == 0xFFFF - Get2(Put2(len))
  {
    Get2Put2(len);
    Get2Put2(Complement(len));
    Cut(Complement(len), 0x10000, Complement(len / 0x10000), 0xFFFF - len % 0x10000);
  }

  /** The frame txstart builds around a payload lying `skew` bytes past a word boundary. */
  function Encode(payload: seq<byte>, skew: nat, seqno: byte): (r: seq<byte>)
    requires skew < 4
    ensures |r| == 16 + skew + |payload|
  {
    var len := 16 + skew + |payload|;
    Put2(len) + Put2(Complement(len)) + [seqno, 2, 0, 12 + skew] + Nulls(4 + skew) + [0x20, 0, 0, 0] + payload
  }

  datatype Read = NoPacket | BadHeader | Got(packet: seq<byte>, rest: seq<byte>)

  /** One pass of wlreadpkt over the bytes the card holds: 12 header bytes, then
      the remaining length rounded up to words. */
  function ReadPacket(rx: seq<byte>): Read {
    var header := Take(rx, 12);
    var len := Get2(header);
    if len == 0 then NoPacket
    else if Get2(header[2..]) != 0xFFFF - len || len < 12 || len > 2048 then BadHeader
    else Got(Take(rx, len), Drop(rx, 12 + RoundUp4(len - 12)))
  }

  /** rproc's channel 2: skip the header and the BDC header, deliver the rest. */
  function Deliver(packet: seq<byte>): Option<seq<byte>>
    requires |packet| >= 12
  {
    var doffset: nat := packet[7];
    if packet[5] % 16 == 2 && |packet| > doffset + 4 then
      var bdc := 4 + 4 * (packet[doffset + 3] as int);
      if |packet| >= doffset + bdc + 14 then Some(packet[doffset + bdc..]) else None
    else None
  }

  /** What arrives first when the card holds `rx`, and what stays behind. */
  function Arrival(rx: seq<byte>): Option<(seq<byte>, seq<byte>)> {
    match ReadPacket(rx)
    case Got(packet, rest) =>
      (match Deliver(packet) case Some(p) => Some((p, rest)) case None => None)
    case _ => None
  }

  // ---------------------------------------------------------------- round trip

  lemma EncodedFields(payload: seq<byte>, skew: nat, seqno: byte)
    requires skew < 4
    ensures var f := Encode(payload, skew, seqno);
            && Get2(f) == |f| % 0x10000 && Get2(f[2..]) == 0xFFFF - |f| % 0x10000
            && f[4] == seqno && f[5] == 2 && f[6] == 0 && f[7] == 12 + skew
            && (forall i :: 8 <= i < 12 + skew ==> f[i] == 0)
            && f[12 + skew..16 + skew] == [0x20, 0, 0, 0] && f[15 + skew] == 0
            && f[16 + skew..] == payload
  {
    var f := Encode(payload, skew, seqno);
    Get2Put2(|f|);
    ComplementCheck(|f|);
    assert f[0] == Put2(|f|)[0] && f[1] == Put2(|f|)[1];
    assert f[2] == Put2(Complement(|f|))[0] && f[3] == Put2(Complement(|f|))[1];
  }

  lemma DeliverEncoded(payload: seq<byte>, skew: nat, seqno: byte)
    requires skew < 4
    ensures var f := Encode(payload, skew, seqno);
            Deliver(f) == if |payload| >= 14 then Some(payload) else None
  {
    EncodedFields(payload, skew, seqno);
  }

  /** Byte i of what the card holds; an exhausted FIFO reads as zeros. */
  function ByteOf(rx: seq<byte>, i: nat): byte { if i < |rx| then rx[i] else 0 }

  lemma TwoBytes(s: seq<byte>)
    requires |s| >= 2
    ensures LittleEndian(s[..2]) == Get2(s)
  {
    var t := s[..2];
    assert t[1..][1..] == [] && LittleEndian(t[1..]) == t[1];
  }

  /** What wlreadpkt makes of any bytes: a packet exactly for a length of 12 to 2048 whose
      check field is its complement, none for a length of 0.  The packet has that length,
      and whole words are taken from the card. */
  lemma ReadExact(rx: seq<byte>)
    ensures var len := LittleEndian([ByteOf(rx, 0), ByteOf(rx, 1)]);
            var check := LittleEndian([ByteOf(rx, 2), ByteOf(rx, 3)]);
            var r := ReadPacket(rx);
            && (r == NoPacket <==> len == 0)
            && (r.Got? <==> 12 <= len <= 2048 && len + check == 0xFFFF)
            && (r.Got? ==> |r.packet| == len && (forall i :: 0 <= i < len ==> r.packet[i] == ByteOf(rx, i))
                           && r.rest == if RoundUp4(len) <= |rx| then rx[RoundUp4(len)..] else [])
  {
    var h := Take(rx, 12);
    TwoBytes(h);
    TwoBytes(h[2..]);
    assert h[..2] == [ByteOf(rx, 0), ByteOf(rx, 1)] && h[2..][..2] == [ByteOf(rx, 2), ByteOf(rx, 3)];
    var len := Get2(h);
    if len >= 12 {
      RoundUpBoth(len);
    }
  }

  /** A packet of channel 2 is delivered without its header, padding, BDC header and as many
      words behind that as the BDC header's last byte says, if an Ethernet header is left. */
  lemma DeliverAny(header: seq<byte>, padding: seq<byte>, bdc: seq<byte>, extra: seq<byte>, payload: seq<byte>)
    requires |header| == 12 && header[5] % 16 == 2 && header[7] == 12 + |padding|
    requires |bdc| == 4 && |extra| == 4 * (bdc[3] as int)
    ensures Deliver(header + padding + bdc + extra + payload) == if |payload| >= 14 then Some(payload) else None
  {
    var packet := header + padding + bdc + extra + payload;
    var d := 12 + |padding|;
    assert packet[7] == d && packet[5] == header[5] && packet[d + 3] == bdc[3];
    assert packet[d + 4 + |extra|..] == payload;
  }

  /** Nothing else is delivered: no other channel, and nothing that is too short. */
  lemma DeliverOnly(packet: seq<byte>)
    requires |packet| >= 12 && Deliver(packet).Some?
    ensures packet[5] % 16 == 2 && packet[7] as int + 4 < |packet|
    ensures var start := packet[7] as int + 4 + 4 * (packet[packet[7] as int + 3] as int);
            start + 14 <= |packet| && Deliver(packet).value == packet[start..]
  {
  }

  /** The bytes one frame occupies on the wire: packetrw sends whole words. */
  predicate OnWire(frame: seq<byte>, bytes: seq<byte>) {
    |bytes| == RoundUp4(|frame|) && bytes[..|frame|] == frame
  }

  /** The receiver sees the transmitter's header. */
  lemma HeaderSeen(payload: seq<byte>, skew: nat, seqno: byte, bytes: seq<byte>, rest: seq<byte>)
    requires skew < 4 && OnWire(Encode(payload, skew, seqno), bytes)
    ensures var f := Encode(payload, skew, seqno);
            Take(bytes + rest, 12) == f[..12] && Take(bytes + rest, |f|) == f
    ensures Drop(bytes + rest, RoundUp4(16 + skew + |payload|)) == rest
  {
    var f := Encode(payload, skew, seqno);
    TakeFront(f, bytes, rest, 12);
    TakeFront(f, bytes, rest, |f|);
    assert f[..|f|] == f && |bytes| == RoundUp4(|f|);
  }

  lemma TakeFront(f: seq<byte>, bytes: seq<byte>, rest: seq<byte>, n: nat)
    requires f <= bytes && n <= |f|
    ensures Take(bytes + rest, n) == f[..n]
  {
  }

  lemma ReadEncoded(payload: seq<byte>, skew: nat, seqno: byte, bytes: seq<byte>, rest: seq<byte>)
    requires skew < 4 && OnWire(Encode(payload, skew, seqno), bytes)
    requires 16 + skew + |payload| <= 2048
    ensures ReadPacket(bytes + rest) == Got(Encode(payload, skew, seqno), rest)
  {
    var f, rx := Encode(payload, skew, seqno), bytes + rest;
    HeaderSeen(payload, skew, seqno, bytes, rest);
    assert Get2(f) == |f| && Get2(f[2..]) == 0xFFFF - |f| by {
      EncodedFields(payload, skew, seqno);
    }
    assert |f| == 16 + skew + |payload|;
    ReadWhole(rx, f, rest);
  }

  lemma ReadWhole(rx: seq<byte>, f: seq<byte>, rest: seq<byte>)
    requires 12 <= |f| <= 2048 && Get2(f) == |f| && Get2(f[2..]) == 0xFFFF - |f|
    requires Take(rx, 12) == f[..12] && Take(rx, |f|) == f && Drop(rx, RoundUp4(|f|)) == rest
    ensures ReadPacket(rx) == Got(f, rest)
  {
    Get2Front(f);
    RoundUpBoth(|f|);
  }

  lemma Get2Front(f: seq<byte>)
    requires |f| >= 12
    ensures Get2(f[..12]) == Get2(f) && Get2(f[..12][2..]) == Get2(f[2..])
  {
  }

  lemma RoundUpBoth(n: nat)
    requires n >= 12
    ensures 12 + RoundUp4(n - 12) == RoundUp4(n)
  {
  }

  /** Frame round trip, exactly: for every buffer alignment and sequence byte the
      packet arrives unchanged, the next frame following it, if and only if it has
      a whole Ethernet header and its frame is at most 2048 bytes long. */
  lemma RoundTrip(payload: seq<byte>, skew: nat, seqno: byte, bytes: seq<byte>, rest: seq<byte>)
    requires skew < 4 && OnWire(Encode(payload, skew, seqno), bytes)
    ensures Arrival(bytes + rest) == Some((payload, rest)) <==>
            |payload| >= 14 && 16 + skew + |payload| <= 2048
  {
    if 16 + skew + |payload| <= 2048 {
      ReadEncoded(payload, skew, seqno, bytes, rest);
      DeliverEncoded(payload, skew, seqno);
    } else {
      TooLong(payload, skew, seqno, bytes, rest);
    }
  }

  /** An oversize frame is refused or, its length having wrapped around, cut short. */
  lemma TooLong(payload: seq<byte>, skew: nat, seqno: byte, bytes: seq<byte>, rest: seq<byte>)
    requires skew < 4 && OnWire(Encode(payload, skew, seqno), bytes)
    requires 16 + skew + |payload| > 2048
    ensures match Arrival(bytes + rest) case Some((p, _)) => |p| < |payload| case None => true
  {
    var f := Encode(payload, skew, seqno);
    EncodedFields(payload, skew, seqno);
    HeaderSeen(payload, skew, seqno, bytes, rest);
    match ReadPacket(bytes + rest)
    case Got(packet, _) =>
      assert packet[7] == f[7];
      assert packet == (bytes + rest)[..|packet|];
    case _ =>
  }

  // ---------------------------------------------------------------- whole streams

  datatype Outgoing = Outgoing(payload: seq<byte>, skew: nat, seqno: byte, bytes: seq<byte>) {
    predicate Sound() {
      skew < 4 && OnWire(Encode(payload, skew, seqno), bytes)
      && |payload| >= 14 && 16 + skew + |payload| <= 2048
    }
  }

  function Stream(fs: seq<Outgoing>): seq<byte> {
    if fs == [] then [] else fs[0].bytes + Stream(fs[1..])
  }

  function Payloads(fs: seq<Outgoing>): seq<seq<byte>> {
    if fs == [] then [] else [fs[0].payload] + Payloads(fs[1..])
  }

  type Receiver = seq<byte> -> Option<(seq<byte>, seq<byte>)>

  /** Up to `most` deliveries, until the receiver finds nothing more. */
  function Arrivals(next: Receiver, rx: seq<byte>, most: nat): seq<seq<byte>>
    decreases most
  {
    if most == 0 then []
    else match next(rx)
      case Some((p, rest)) => [p] + Arrivals(next, rest, most - 1)
      case None => []
  }

  /** Frames that a receiver can tell from what follows them can be sent back to back. */
  lemma {:induction false} Delimited(next: Receiver, fs: seq<Outgoing>, most: nat)
    requires |fs| <= most && next([]) == None
    requires forall i, rest | 0 <= i < |fs| :: next(fs[i].bytes + rest) == Some((fs[i].payload, rest))
    ensures Arrivals(next, Stream(fs), most) == Payloads(fs)
    decreases |fs|
  {
    if fs != [] {
      assert next(fs[0].bytes + Stream(fs[1..])) == Some((fs[0].payload, Stream(fs[1..])));
      forall i, rest | 0 <= i < |fs[1..]|
        ensures next(fs[1..][i].bytes + rest) == Some((fs[1..][i].payload, rest))
      {
        assert fs[1..][i] == fs[i + 1];
      }
      Delimited(next, fs[1..], most - 1);
    }
  }

  /** Any number of frames, back to back, arrive as the packets they carry, in
      order, and then nothing more does. */
  lemma StreamRoundTrip(fs: seq<Outgoing>, most: nat)
    requires |fs| <= most && forall i :: 0 <= i < |fs| ==> fs[i].Sound()
    ensures Arrivals(Arrival, Stream(fs), most) == Payloads(fs)
  {
    assert Arrival([]) == None by {
      assert Take([], 12) == Nulls(12);
    }
    forall i, rest | 0 <= i < |fs| ensures Arrival(fs[i].bytes + rest) == Some((fs[i].payload, rest)) {
      RoundTrip(fs[i].payload, fs[i].skew, fs[i].seqno, fs[i].bytes, rest);
    }
    Delimited(Arrival, fs, most);
  }

  // ---------------------------------------------------------------- the driver's buffers

  /** A network buffer: bytes rp..wp of buf are the packet. */
  class Block {
    const buf: array<byte>
    const address: nat   // of buf[0]
    var rp: nat
    var wp: nat

    ghost predicate Valid()
      reads this
    {
      rp <= wp <= buf.Length
    }

    ghost function Packet(): seq<byte>
      requires Valid()
      reads this, buf
    {
      buf[rp..wp]
    }

    /** allocb: 64 bytes of headroom. */
    constructor (size: nat, address: nat)
      ensures Valid() && fresh(buf) && rp == wp == 64 && buf.Length == size + 64 && this.address == address
    {
      buf := new byte[size + 64];
      this.address, rp, wp := address, 64, 64;
    }

    /** padblock */
    method Pad(size: int) returns (ok: bool)
      requires Valid()
      modifies this`rp
      ensures Valid() && ok == (0 < size <= old(rp)) && rp == (if ok then old(rp) - size else old(rp))
    {
      if size <= 0 || rp < size {
        return false;
      }
      rp := rp - size;
      return true;
    }

    /** put2, put4 and the single stores: a few bytes at `at`, nothing else. */
    method Put(at: nat, data: seq<byte>)
      requires at + |data| <= buf.Length
      modifies buf
      ensures forall k :: at <= k < at + |data| ==> buf[k] == data[k - at]
      ensures forall k :: 0 <= k < at || at + |data| <= k < buf.Length ==> buf[k] == old(buf[k])
    {
      for i := 0 to |data|
        invariant forall k :: at <= k < at + i ==> buf[k] == data[k - at]
        invariant forall k :: 0 <= k < at || at + i <= k < buf.Length ==> buf[k] == old(buf[k])
      {
        buf[at + i] := data[i];
      }
    }

    /** memset, put2, put2, the header bytes and put4 of txstart. */
    method PutHeader(off: nat, len: nat, seqno: byte)
      requires Valid() && 12 <= off && rp + off + 4 <= wp && off < 256
      modifies buf
      ensures HasHeader(buf[..], rp, off, len, seqno)
      ensures forall k :: 0 <= k < rp || rp + off + 4 <= k < buf.Length ==> buf[k] == old(buf[k])
    {
      Put(rp, Nulls(off));
      Put(rp, Put2(len));
      Put(rp + 2, Put2(Complement(len)));
      Put(rp + 4, [seqno, 2]);
      Put(rp + 7, [off]);
      Put(rp + off, [0x20, 0, 0, 0]);
    }

    /** The framing of txstart: the header lands on a word boundary inside the headroom. */
    method Frame(seqno: byte)
      requires Valid() && rp >= 19
      modifies this`rp, buf
      ensures Valid() && wp == old(wp) && old(rp) - 19 <= rp && (address + rp) % 4 == 0
      ensures Packet() == Encode(old(Packet()), (address + old(rp)) % 4, seqno)
    {
      ghost var payload := Packet();
      var skew := (address + rp) % 4;
      var off := skew + 12;
      var ok := Pad(off + 4);
      assert (address + rp) % 4 == 0;
      PutHeader(off, wp - rp, seqno);
      assert Packet()[off + 4..] == payload;
      HeaderMakesFrame(buf[..], rp, wp, skew, seqno);
    }
  }

  /** The bytes of the header and the BDC header, from `at` on. */
  predicate HasHeader(s: seq<byte>, at: nat, off: nat, len: nat, seqno: byte)
  {
    && 12 <= off < 256 && at + off + 4 <= |s|
    && s[at] == Put2(len)[0] && s[at + 1] == Put2(len)[1]
    && s[at + 2] == Put2(Complement(len))[0] && s[at + 3] == Put2(Complement(len))[1]
    && s[at + 4] == seqno && s[at + 5] == 2 && s[at + 6] == 0 && s[at + 7] == off
    && (forall k :: at + 8 <= k < at + off ==> s[k] == 0)
    && s[at + off] == 0x20 && s[at + off + 1] == 0 && s[at + off + 2] == 0 && s[at + off + 3] == 0
  }

  lemma HeaderMakesFrame(s: seq<byte>, rp: nat, wp: nat, skew: nat, seqno: byte)
    requires skew < 4 && rp + 16 + skew <= wp <= |s| && HasHeader(s, rp, 12 + skew, wp - rp, seqno)
    ensures s[rp..wp] == Encode(s[rp + 16 + skew..wp], skew, seqno)
  {
    var f, g := s[rp..wp], Encode(s[rp + 16 + skew..wp], skew, seqno);
    assert |g| == |f|;
    forall i | 0 <= i < |f| ensures f[i] == g[i] {
      if i < 8 {
      } else if i < 12 + skew {
        assert g[i] == Nulls(4 + skew)[i - 8];
      } else if i < 16 + skew {
        assert g[i] == [0x20, 0, 0, 0][i - 12 - skew];
      } else {
        assert f[i] == s[rp + i];
      }
    }
  }

  /** txstart's transmission of one packet. */
  method Transmit(card: Card, b: Block, seqno: byte) returns (ghost bytes: seq<byte>)
    requires card.Valid() && b.Valid() && b.rp >= 19 && b.wp + 3 <= b.buf.Length
    modifies card`mem, card`tx, card`rx, b`rp, b.buf
    ensures card.Valid() && b.Valid() && card.mem == old(card.mem) && card.rx == old(card.rx)
    ensures card.tx == old(card.tx) + bytes
    ensures OnWire(Encode(old(b.Packet()), (b.address + old(b.rp)) % 4, seqno), bytes)
  {
    b.Frame(seqno);
    ghost var frame := b.Packet();
    bytes := SendPacket(card, b.buf, b.rp, b.wp - b.rp);
    assert bytes[..|frame|] == frame;
  }

  method SendPacket(card: Card, a: array<byte>, start: nat, len: nat) returns (ghost bytes: seq<byte>)
    requires card.Valid() && start + RoundUp4(len) <= a.Length
    modifies card`mem, card`tx, card`rx, a
    ensures card.Valid() && card.mem == old(card.mem) && card.rx == old(card.rx) && a[..] == old(a[..])
    ensures card.tx == old(card.tx) + bytes && bytes == old(a[..])[start..start + RoundUp4(len)]
  {
    MovedIsSent(card.Value(a), start, RoundUp4(len), 0);
    bytes := a[start..start + RoundUp4(len)];
    card.PacketRw(true, a, start, len);
  }

  method FetchPacket(card: Card, a: array<byte>, start: nat, len: nat)
    requires card.Valid() && start + RoundUp4(len) <= a.Length
    modifies card`mem, card`tx, card`rx, a
    ensures card.Valid() && card.mem == old(card.mem) && card.tx == old(card.tx)
    ensures card.rx == Drop(old(card.rx), RoundUp4(len))
    ensures a[..] == Splice(old(a[..]), start, Take(old(card.rx), RoundUp4(len)))
  {
    MovedIsFetched(card.Value(a), start, RoundUp4(len), 0);
    card.PacketRw(false, a, start, len);
  }

  /** One pass of wlreadpkt: header first, then the rest, into a 2048-byte block. */
  method Receive(card: Card) returns (r: Read)
    requires card.Valid()
    modifies card`mem, card`tx, card`rx
    ensures card.Valid() && card.mem == old(card.mem) && card.tx == old(card.tx)
    ensures r == ReadPacket(old(card.rx))
    ensures r.Got? ==> card.rx == r.rest
  {
    ghost var rx := card.rx;
    var b := new Block(2048, 0);
    var header := ReceiveHeader(card, b);
    var len := Get2(header);
    if len == 0 {
      return NoPacket;
    }
    var lenck := Get2(header[2..]);
    if lenck != 0xFFFF - len || len < 12 || len > 2048 {
      return BadHeader;
    }
    var packet := ReceiveBody(card, b, len, rx);
    r := Got(packet, card.rx);
  }

  method ReceiveHeader(card: Card, b: Block) returns (header: seq<byte>)
    requires card.Valid() && b.buf.Length == 2112 && b.wp == 64
    modifies card`mem, card`tx, card`rx, b.buf
    ensures card.Valid() && card.mem == old(card.mem) && card.tx == old(card.tx)
    ensures header == b.buf[64..76] == Take(old(card.rx), 12) && card.rx == Drop(old(card.rx), 12)
  {
    SpliceSlices(b.buf[..], 64, Take(card.rx, 12));
    FetchPacket(card, b.buf, b.wp, 12);
    header := b.buf[64..76];
  }

  method ReceiveBody(card: Card, b: Block, len: nat, ghost rx: seq<byte>) returns (packet: seq<byte>)
    requires card.Valid() && b.buf.Length == 2112 && 12 <= len <= 2048
    requires b.buf[64..76] == Take(rx, 12) && card.rx == Drop(rx, 12)
    modifies card`mem, card`tx, card`rx, b.buf
    ensures card.Valid() && card.mem == old(card.mem) && card.tx == old(card.tx)
    ensures packet == Take(rx, len) && card.rx == Drop(rx, 12 + RoundUp4(len - 12))
  {
    ghost var half := b.buf[..];
    if len > 12 {
      FetchPacket(card, b.buf, 76, len - 12);
    }
    BothParts(rx, len, half, b.buf[..]);
    packet := b.buf[64..64 + len];
  }

  lemma BothParts(rx: seq<byte>, len: nat, half: seq<byte>, whole: seq<byte>)
    requires 12 <= len <= 2048 && |half| == |whole| == 2112 && half[64..76] == Take(rx, 12)
    requires if len > 12 then whole == Splice(half, 76, Take(Drop(rx, 12), RoundUp4(len - 12))) else whole == half
    ensures whole[64..64 + len] == Take(rx, len)
    ensures Drop(Drop(rx, 12), RoundUp4(len - 12)) == Drop(rx, 12 + RoundUp4(len - 12))
  {
    forall i | 0 <= i < len ensures whole[64 + i] == Take(rx, len)[i] {
      if i < 12 {
        assert half[64..76][i] == Take(rx, 12)[i];
      }
    }
  }
}
