// A TCP segment on the wire: the headers built by send_segment, tcp::send and
// ipv4::write, and their inspection by ipv4::process_packet and
// tcp::process_packet.
module Wire {
  import opened Checksum
  import opened Common

  const PROTO_TCP: int := 6
  const VERSION_IHL: int := 0x45
  const BROADCAST: int := 0xFFFF_FFFF

  datatype TcpInfo = TcpInfo(source: int, dest: int, num: int, ack: int, flags: int, window: int)

  predicate InRange(i: TcpInfo) {
    && 0 <= i.source < M16 && 0 <= i.dest < M16 && 0 <= i.num < M32 && 0 <= i.ack < M32
    && 0 <= i.flags < 256 && 0 <= i.window < M16
  }

  // ---- byte order --------------------------------------------------------------------

  function Be16(x: int): (b: seq<byte>)
    requires 0 <= x < M16
    ensures |b| == 2
  {
    [x / 256, x % 256]
  }

  function Be32(x: int): (b: seq<byte>)
    requires 0 <= x < M32
    ensures |b| == 4
  {
    [x / 0x100_0000, x / M16 % 256, x / 256 % 256, x % 256]
  }

  function U16(b: seq<byte>, i: int): int
    requires 0 <= i && i + 2 <= |b|
  {
    256 * (b[i] as int) + b[i + 1]
  }

  function U32(b: seq<byte>, i: int): int
    requires 0 <= i && i + 4 <= |b|
  {
    M16 * U16(b, i) + U16(b, i + 2)
  }

  // The checksum is stored as the processor holds it.
  function Le16(x: int): seq<byte>
    requires 0 <= x < M16
  {
    [x % 256, x / 256]
  }

  lemma U16Be(a: seq<byte>, x: int, b: seq<byte>)
    requires 0 <= x < M16
    ensures U16(a + Be16(x) + b, |a|) == x
  {
    var s := a + Be16(x) + b;
    assert s[|a|] == x / 256 && s[|a| + 1] == x % 256;
  }

  lemma U32Be(a: seq<byte>, x: int, b: seq<byte>)
    requires 0 <= x < M32
    ensures U32(a + Be32(x) + b, |a|) == x
  {
    var s := a + Be32(x) + b;
    assert s[|a|] == x / 0x100_0000 && s[|a| + 1] == x / M16 % 256;
    assert s[|a| + 2] == x / 256 % 256 && s[|a| + 3] == x % 256;
    FourBytes(x);
  }

  lemma FourBytes(x: int)
    ensures M16 * (256 * (x / 0x100_0000) + x / M16 % 256) + (256 * (x / 256 % 256) + x % 256) == x
  {
    var h := x / M16;
    assert x == M16 * h + x % M16 && x / 0x100_0000 == h / 256;
    assert x % M16 == 256 * (x / 256 % 256) + x % 256;
  }

  // ---- building ------------------------------------------------------------------------

  function TcpFront(i: TcpInfo): seq<byte>
    requires InRange(i)
  {
    Be16(i.source) + Be16(i.dest) + Be32(i.num) + Be32(i.ack) + [0x50, i.flags] + Be16(i.window)
  }

  function TcpHeader(i: TcpInfo, csum: int): (h: seq<byte>)
    requires InRange(i) && 0 <= csum < M16
    ensures |h| == 20
  {
    TcpFront(i) + Le16(csum) + [0, 0]
  }

  function Pseudo(saddr: int, daddr: int, length: int): seq<byte>
    requires 0 <= saddr < M32 && 0 <= daddr < M32 && 0 <= length < M16
  {
    Be32(saddr) + Be32(daddr) + [0, PROTO_TCP] + Be16(length)
  }

  function IpFront(len: int): (b: seq<byte>)
    requires 0 <= len < M16
    ensures |b| == 10
  {
    [VERSION_IHL, 0] + Be16(len) + [0, 0, 0, 0, 64, PROTO_TCP]
  }

  function IpHeader(len: int, saddr: int, daddr: int, csum: int): (h: seq<byte>)
    requires 0 <= len < M16 && 0 <= saddr < M32 && 0 <= daddr < M32 && 0 <= csum < M16
    ensures |h| == 20
  {
    IpFront(len) + Le16(csum) + (Be32(saddr) + Be32(daddr))
  }

  function TcpSegment(saddr: int, daddr: int, i: TcpInfo, payload: seq<byte>): (r: seq<byte>)
    requires InRange(i) && 0 <= saddr < M32 && 0 <= daddr < M32 && |payload| <= 65495
    ensures |r| == 20 + |payload|
  {
    var csum := IpChecksum(TcpHeader(i, 0) + payload, Sum(Pseudo(saddr, daddr, |payload| + 20)));
    TcpHeader(i, csum) + payload
  }

  // The IP packet handed to the link layer.
  function Packet(saddr: int, daddr: int, i: TcpInfo, payload: seq<byte>): seq<byte>
    requires InRange(i) && 0 <= saddr < M32 && 0 <= daddr < M32 && |payload| <= 65495
  {
    var len := 40 + |payload|;
    IpHeader(len, saddr, daddr, IpChecksum(IpHeader(len, saddr, daddr, 0), 0)) + TcpSegment(saddr, daddr, i, payload)
  }

  // ---- parsing ---------------------------------------------------------------------------

  // Dropped by a check of the source; Stray when the source goes on although the
  // length or the header size points outside the frame or the payload.
  datatype Received = Dropped | Stray | Delivered(saddr: int, info: TcpInfo, payload: seq<byte>)

  predicate IpAccepts(b: seq<byte>, addr: int) {
    && |b| >= 20
    && IpChecksum(b[..20], 0) == 0
    && b[0] == VERSION_IHL
    && (U32(b, 16) == addr || U32(b, 16) == BROADCAST)
  }

  // ipv4::process_packet, then tcp::process_packet for protocol 6. The length
  // field decides how much of the frame is payload.
  function Receive(b: seq<byte>, addr: int): Received {
    if !IpAccepts(b, addr) || b[9] != PROTO_TCP then Dropped
    else
      var len := U16(b, 2) - 20;
      if len < 0 || |b| < 40 || 20 + len > |b| then Stray
      else
        var t := b[20..20 + len];
        if len < 20 || (t[12] / 16) * 4 > len then Stray
        else Delivered(U32(b, 12), TcpInfo(U16(t, 0), U16(t, 2), U32(t, 4), U32(t, 8), t[13], U16(t, 14)),
                       t[(t[12] / 16) * 4..])
  }

  // ---- round trip --------------------------------------------------------------------------

  lemma ParseTcp(i: TcpInfo, csum: int, payload: seq<byte>)
    requires InRange(i) && 0 <= csum < M16
    ensures var t := TcpHeader(i, csum) + payload;
            && t[12] == 0x50 && t[13] == i.flags && t[20..] == payload
            && U16(t, 0) == i.source && U16(t, 2) == i.dest && U32(t, 4) == i.num && U32(t, 8) == i.ack
            && U16(t, 14) == i.window
  {
    hide Be16, Be32, U16, U32;
    var t := TcpHeader(i, csum) + payload;
    var tail := Le16(csum) + [0, 0] + payload;
    var a, b, c, d, e := Be16(i.source), Be16(i.dest), Be32(i.num), Be32(i.ack), Be16(i.window);
    assert t == [] + a + (b + c + d + [0x50, i.flags] + e + tail);
    U16Be([], i.source, b + c + d + [0x50, i.flags] + e + tail);
    assert t == a + b + (c + d + [0x50, i.flags] + e + tail);
    U16Be(a, i.dest, c + d + [0x50, i.flags] + e + tail);
    assert t == (a + b) + c + (d + [0x50, i.flags] + e + tail);
    U32Be(a + b, i.num, d + [0x50, i.flags] + e + tail);
    assert t == (a + b + c) + d + ([0x50, i.flags] + e + tail);
    U32Be(a + b + c, i.ack, [0x50, i.flags] + e + tail);
    assert t == (a + b + c + d + [0x50, i.flags]) + e + tail;
    U16Be(a + b + c + d + [0x50, i.flags], i.window, tail);
  }

  lemma ParseIp(len: int, saddr: int, daddr: int, csum: int, rest: seq<byte>)
    requires 0 <= len < M16 && 0 <= saddr < M32 && 0 <= daddr < M32 && 0 <= csum < M16
    ensures var b := IpHeader(len, saddr, daddr, csum) + rest;
            && b[0] == VERSION_IHL && b[9] == PROTO_TCP && b[..20] == IpHeader(len, saddr, daddr, csum) && b[20..] == rest
            && U16(b, 2) == len && U32(b, 12) == saddr && U32(b, 16) == daddr
  {
    var b := IpHeader(len, saddr, daddr, csum) + rest;
    var mid := [0, 0, 0, 0, 64, PROTO_TCP] + Le16(csum);
    assert b == [VERSION_IHL, 0] + Be16(len) + (mid + Be32(saddr) + Be32(daddr) + rest);
    U16Be([VERSION_IHL, 0], len, mid + Be32(saddr) + Be32(daddr) + rest);
    var front := IpFront(len) + Le16(csum);
    assert b == front + Be32(saddr) + (Be32(daddr) + rest);
    U32Be(front, saddr, Be32(daddr) + rest);
    assert b == (front + Be32(saddr)) + Be32(daddr) + rest;
    U32Be(front + Be32(saddr), daddr, rest);
  }

  // The bytes of the headers, in network order as RFC 791 and RFC 9293 lay them out; the
  // checksum field is filled as the processor holds it.
  lemma IpBytes(len: int, saddr: int, daddr: int, csum: int)
    requires 0 <= len < M16 && 0 <= saddr < M32 && 0 <= daddr < M32 && 0 <= csum < M16
    ensures var h := IpHeader(len, saddr, daddr, csum);
            && h[..2] == [0x45, 0] && 256 * h[2] as int + h[3] as int == len
            && h[4..10] == [0, 0, 0, 0, 64, 6] && h[10] as int + 256 * h[11] as int == csum
            && 0x100_0000 * h[12] as int + 0x1_0000 * h[13] as int + 256 * h[14] as int + h[15] as int == saddr
            && 0x100_0000 * h[16] as int + 0x1_0000 * h[17] as int + 256 * h[18] as int + h[19] as int == daddr
  {
    FourBytes(saddr);
    FourBytes(daddr);
  }

  lemma TcpBytes(i: TcpInfo, csum: int)
    requires InRange(i) && 0 <= csum < M16
    ensures var h := TcpHeader(i, csum);
            && 256 * h[0] as int + h[1] as int == i.source && 256 * h[2] as int + h[3] as int == i.dest
            && 0x100_0000 * h[4] as int + 0x1_0000 * h[5] as int + 256 * h[6] as int + h[7] as int == i.num
            && 0x100_0000 * h[8] as int + 0x1_0000 * h[9] as int + 256 * h[10] as int + h[11] as int == i.ack
            && h[12] == 0x50 && h[13] == i.flags && 256 * h[14] as int + h[15] as int == i.window
            && h[16] as int + 256 * h[17] as int == csum && h[18..] == [0, 0]
  {
    FourBytes(i.num);
    FourBytes(i.ack);
  }

  // The IP header of a packet is correct for any receiver that follows RFC 1071 exactly
  // when its sum folds without a carry.
  lemma StandardIp(saddr: int, daddr: int, i: TcpInfo, payload: seq<byte>)
    requires InRange(i) && 0 <= saddr < M32 && 0 <= daddr < M32 && |payload| <= 65495
    ensures OnesSum(BeSum(Packet(saddr, daddr, i, payload)[..20])) == 0xFFFF
       <==> NoCarry(HeaderSum(saddr, daddr, |payload|))
  {
    hide OnesSum, BeSum, Sum, NoCarry, IpFront, TcpSegment, Be16, Be32, Halves, Complement, IpChecksum;
    var len, ends := 40 + |payload|, Be32(saddr) + Be32(daddr);
    var c := IpChecksum(IpHeader(len, saddr, daddr, 0), 0);
    var h := IpHeader(len, saddr, daddr, c);
    assert Packet(saddr, daddr, i, payload)[..20] == h;
    assert IpHeader(len, saddr, daddr, 0) == IpFront(len) + [0, 0] + ends;
    SumBound(IpHeader(len, saddr, daddr, 0));
    NoBytes();
    FilledSum([], IpFront(len), ends, IpHeader(len, saddr, daddr, 0), h);
    assert [] + h == h;
    StandardVerifies(h, HeaderSum(saddr, daddr, |payload|));
  }

  // So is the TCP segment together with its pseudo header.
  lemma StandardTcp(saddr: int, daddr: int, i: TcpInfo, payload: seq<byte>)
    requires InRange(i) && 0 <= saddr < M32 && 0 <= daddr < M32 && |payload| <= 65495
    ensures var pre := Pseudo(saddr, daddr, |payload| + 20);
            (OnesSum(BeSum(pre + TcpSegment(saddr, daddr, i, payload))) == 0xFFFF
             <==> NoCarry(Sum(pre) + Sum(TcpHeader(i, 0) + payload)))
  {
    hide OnesSum, BeSum, Sum, NoCarry, TcpHeader, Pseudo, Halves, Complement, IpChecksum, TcpFront;
    var pre := Pseudo(saddr, daddr, |payload| + 20);
    TcpSum(saddr, daddr, i, payload);
    StandardVerifies(pre + TcpSegment(saddr, daddr, i, payload), Sum(pre) + Sum(TcpHeader(i, 0) + payload));
  }

  lemma TcpSum(saddr: int, daddr: int, i: TcpInfo, payload: seq<byte>)
    requires InRange(i) && 0 <= saddr < M32 && 0 <= daddr < M32 && |payload| <= 65495
    ensures var pre := Pseudo(saddr, daddr, |payload| + 20);
            var x := Sum(pre) + Sum(TcpHeader(i, 0) + payload);
            x < M32 && Sum(pre + TcpSegment(saddr, daddr, i, payload)) == x + Complement(Halves(x))
  {
    hide Sum, TcpHeader, Pseudo, Halves, Complement, IpChecksum, TcpFront, TcpSegment;
    var pre := Pseudo(saddr, daddr, |payload| + 20);
    SegmentIs(saddr, daddr, i, payload);
    PseudoSize(saddr, daddr, |payload| + 20);
    ShortSum(pre);
    ShortSum(TcpHeader(i, 0) + payload);
    SegmentSum(pre, i, payload);
  }

  lemma SegmentIs(saddr: int, daddr: int, i: TcpInfo, payload: seq<byte>)
    requires InRange(i) && 0 <= saddr < M32 && 0 <= daddr < M32 && |payload| <= 65495
    ensures var c := IpChecksum(TcpHeader(i, 0) + payload, Sum(Pseudo(saddr, daddr, |payload| + 20)));
            TcpSegment(saddr, daddr, i, payload) == TcpHeader(i, c) + payload
  {
  }

  lemma ShortSum(data: seq<byte>)
    requires |data| < 65536
    ensures Sum(data) < 0x8000_0000
  {
    SumBound(data);
  }

  lemma SegmentSum(pre: seq<byte>, i: TcpInfo, payload: seq<byte>)
    requires InRange(i) && |pre| % 2 == 0 && Sum(pre) + Sum(TcpHeader(i, 0) + payload) < M32
    ensures var x := Sum(pre) + Sum(TcpHeader(i, 0) + payload);
            Sum(pre + (TcpHeader(i, IpChecksum(TcpHeader(i, 0) + payload, Sum(pre))) + payload)) == x + Complement(Halves(x))
  {
    hide Sum, Halves, Complement, IpChecksum, TcpHeader, TcpFront, Be16, Be32;
    var c := IpChecksum(TcpHeader(i, 0) + payload, Sum(pre));
    TcpFrontSize(i);
    TcpParts(i, 0, payload);
    TcpParts(i, c, payload);
    ZeroField();
    FilledSum(pre, TcpFront(i), [0, 0] + payload, TcpHeader(i, 0) + payload, TcpHeader(i, c) + payload);
  }

  lemma ZeroField()
    ensures [0 % 256, 0 / 256] == [0, 0]
  {
  }

  lemma TcpParts(i: TcpInfo, csum: int, payload: seq<byte>)
    requires InRange(i) && 0 <= csum < M16
    ensures TcpHeader(i, csum) + payload == TcpFront(i) + [csum % 256, csum / 256] + ([0, 0] + payload)
  {
    hide TcpFront;
  }

  lemma PseudoSize(saddr: int, daddr: int, length: int)
    requires 0 <= saddr < M32 && 0 <= daddr < M32 && 0 <= length < M16
    ensures |Pseudo(saddr, daddr, length)| == 12
  {
  }

  lemma TcpFrontSize(i: TcpInfo)
    requires InRange(i)
    ensures |TcpFront(i)| == 16
  {
  }

  lemma NoBytes()
    ensures Sum([]) == 0
  {
  }

  // The header sum the sender folds.
  function HeaderSum(saddr: int, daddr: int, size: nat): nat
    requires 0 <= saddr < M32 && 0 <= daddr < M32 && size <= 65495
  {
    Sum(IpHeader(40 + size, saddr, daddr, 0))
  }

  lemma HeaderVerifies(len: int, saddr: int, daddr: int)
    requires 0 <= len < M16 && 0 <= saddr < M32 && 0 <= daddr < M32
    ensures var h := IpHeader(len, saddr, daddr, 0);
            IpChecksum(IpHeader(len, saddr, daddr, IpChecksum(h, 0)), 0) == 0 <==> NoCarry(Sum(h))
  {
    hide Sum, IpFront, Be32, Be16, Halves, NoCarry;
    var h := IpHeader(len, saddr, daddr, 0);
    var c := IpChecksum(h, 0);
    SumWithField(IpFront(len), c, Be32(saddr) + Be32(daddr));
    SumBound(h);
    VerifiesExactlyWhen(Sum(h));
  }

  // What was sent is received unchanged, whatever padding the frame carries,
  // exactly when the two halves of the header sum add without a carry; otherwise
  // the packet is dropped.
  lemma RoundTrip(saddr: int, daddr: int, i: TcpInfo, payload: seq<byte>, padding: seq<byte>)
    requires InRange(i) && 0 <= saddr < M32 && 0 <= daddr < M32 && |payload| <= 65495
    ensures Receive(Packet(saddr, daddr, i, payload) + padding, daddr)
         == if NoCarry(HeaderSum(saddr, daddr, |payload|)) then Delivered(saddr, i, payload) else Dropped
  {
    hide Sum, IpHeader, TcpHeader, TcpFront, IpFront, Be16, Be32, U16, U32, IpChecksum, Halves, Complement, Pseudo, NoCarry;
    var len := 40 + |payload|;
    var seg := TcpSegment(saddr, daddr, i, payload);
    var c := IpChecksum(IpHeader(len, saddr, daddr, 0), 0);
    var b := Packet(saddr, daddr, i, payload) + padding;
    assert b == IpHeader(len, saddr, daddr, c) + (seg + padding);
    ParseIp(len, saddr, daddr, c, seg + padding);
    HeaderVerifies(len, saddr, daddr);
    assert b[20..20 + (len - 20)] == seg by {
      assert b[20..] == seg + padding;
    }
    ParseTcp(i, IpChecksum(TcpHeader(i, 0) + payload, Sum(Pseudo(saddr, daddr, |payload| + 20))), payload);
  }

  lemma SumCons(x: byte, y: byte, rest: seq<byte>)
    ensures Sum([x, y] + rest) == Word(x, y) + Sum(rest)
  {
    SumConcat([x, y], rest);
    WordSum(x, y);
  }

  // Every empty segment from 10.0.2.15 to 55.225.55.225 is dropped.
  lemma CarryExample(i: TcpInfo, padding: seq<byte>)
    requires InRange(i)
    ensures Receive(Packet(0x0A00_020F, 0x37E1_37E1, i, []) + padding, 0x37E1_37E1) == Dropped
  {
    hide Receive, Packet, HeaderSum;
    CarrySum();
    RoundTrip(0x0A00_020F, 0x37E1_37E1, i, [], padding);
  }

  lemma CarrySum()
    ensures HeaderSum(0x0A00_020F, 0x37E1_37E1, 0) == 0x1_FFFF
  {
    hide Sum;
    var d: seq<byte> := [0x37, 0xE1];
    var c: seq<byte> := [2, 15] + ([0x37, 0xE1] + d);
    var b: seq<byte> := [64, 6] + ([0, 0] + ([10, 0] + c));
    var a: seq<byte> := [0x45, 0] + ([0, 40] + ([0, 0] + ([0, 0] + b)));
    assert IpHeader(40, 0x0A00_020F, 0x37E1_37E1, 0) == a;
    WordSum(0x37, 0xE1);
    SumCons(0x37, 0xE1, d);
    SumCons(2, 15, [0x37, 0xE1] + d);
    SumCons(10, 0, c);
    SumCons(0, 0, [10, 0] + c);
    SumCons(64, 6, [0, 0] + ([10, 0] + c));
    SumCons(0, 0, b);
    SumCons(0, 0, [0, 0] + b);
    SumCons(0, 40, [0, 0] + ([0, 0] + b));
    SumCons(0x45, 0, [0, 40] + ([0, 0] + ([0, 0] + b)));
  }
}
