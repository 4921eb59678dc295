// The socket buffer of net/include/net/sockbuf.hpp and the way send_segment,
// tcp::send and ipv4::write fill one from the payload outwards.
module Sockbuf {
  import opened Checksum
  import opened Common
  import opened Wire

  datatype HeaderType = Virtio | Ethernet | Ip | Icmp | Udp | Tcp

  class KSockbuf {
    const buf: array<byte>
    var head: int
    var payload: int
    var payloadSize: int
    var headers: map<HeaderType, int>

    ghost predicate Valid()
      reads this
    {
      0 <= head <= payload && 0 <= payloadSize && payload + payloadSize <= buf.Length
    }

    // data() and size(): from the outermost header to the end of the payload.
    function Data(): (d: seq<byte>)
      reads this, buf
      requires Valid()
    {
      buf[head..payload + payloadSize]
    }

    // Room for headers in front of a copy of the payload.
    constructor (headersSize: nat, data: seq<byte>)
      ensures Valid() && Data() == data && head == payload == headersSize && payloadSize == |data| && headers == map[]
      ensures fresh(buf)
    {
      buf := new byte[headersSize + |data|](i => if headersSize <= i < headersSize + |data| then data[i - headersSize] else 0);
      head, payload, payloadSize, headers := headersSize, headersSize, |data|, map[];
      new;
      assert Data() == data;
    }

    // Zero-copy reception: the whole frame is payload.
    constructor Wrap(frame: array<byte>)
      ensures Valid() && buf == frame && Data() == frame[..] && payloadSize == frame.Length && headers == map[]
    {
      buf, head, payload, payloadSize, headers := frame, 0, 0, frame.Length, map[];
    }

    // add_header: the start of the header, the existing one if there is one
    // already, or -1 if there is no room left in front.
    method AddHeader(size: nat, kind: HeaderType) returns (off: int)
      requires Valid()
      modifies this`head, this`headers
      ensures Valid()
      ensures old(head) < size ==> off == -1 && head == old(head) && headers == old(headers)
      ensures old(head) >= size && kind in old(headers) ==>
                off == old(headers)[kind] && head == old(head) && headers == old(headers)
      ensures old(head) >= size && kind !in old(headers) ==>
                off == head == old(head) - size && headers == old(headers)[kind := off]
    {
      if head < size {
        return -1;
      }
      if kind in headers {
        return headers[kind];
      }
      head := head - size;
      headers := headers[kind := head];
      return head;
    }

    // add_parsed_header: the first size bytes of the payload become a header.
    method AddParsedHeader(size: nat, kind: HeaderType)
      requires Valid()
      modifies this`head, this`payload, this`payloadSize, this`headers
      ensures Valid() && payload - head == old(payload) - old(head)
      ensures kind in old(headers) || size > old(payloadSize) ==>
                head == old(head) && payloadSize == old(payloadSize) && headers == old(headers)
      ensures kind !in old(headers) && size <= old(payloadSize) ==>
                && head == old(head) + size && payloadSize == old(payloadSize) - size
                && headers == old(headers)[kind := old(head)]
    {
      if kind in headers {
        return;
      }
      if size > payloadSize {
        return;
      }
      headers := headers[kind := head];
      head := head + size;
      payloadSize := payloadSize - size;
      payload := payload + size;
    }

    // Stores the bytes of a header at off.
    method Put(off: int, bytes: seq<byte>)
      requires Valid() && 0 <= off && off + |bytes| <= buf.Length
      modifies buf
      ensures buf[..] == old(buf[..off]) + bytes + old(buf[off + |bytes|..])
    {
      for i := 0 to |bytes|
        invariant buf[..] == old(buf[..off]) + bytes[..i] + old(buf[off + i..])
      {
        buf[off + i] := bytes[i];
      }
    }

    // Fills the front of the data.
    method PutFront(bytes: seq<byte>)
      requires Valid() && head + |bytes| <= payload + payloadSize
      modifies buf
      ensures Valid() && Data() == bytes + old(Data())[|bytes|..]
    {
      ghost var before, h, e := buf[..], head, payload + payloadSize;
      Put(head, bytes);
      assert buf[..] == before[..h] + bytes + before[h + |bytes|..];
      assert buf[..][h..e] == bytes + before[h..e][|bytes|..];
    }
  }

  // send_segment, tcp::send and ipv4::write: headers are added innermost first,
  // each checksum over the header with a zero field, and the result is the packet.
  method BuildPacket(saddr: int, daddr: int, i: TcpInfo, payload: seq<byte>, linkHeaders: nat) returns (sb: KSockbuf)
    requires InRange(i) && 0 <= saddr < M32 && 0 <= daddr < M32 && |payload| <= 65495
    ensures fresh(sb) && sb.Valid() && sb.head == linkHeaders
    ensures sb.Data() == Packet(saddr, daddr, i, payload)
  {
    hide TcpSegment, IpHeader, IpChecksum;
    sb := new KSockbuf(40 + linkHeaders, payload);
    WriteTcp(sb, saddr, daddr, i);
    WriteIp(sb, saddr, daddr);
  }

  // send_segment from the header on, and the checksum of tcp::send.
  method WriteTcp(sb: KSockbuf, saddr: int, daddr: int, i: TcpInfo)
    requires sb.Valid() && sb.head == sb.payload && sb.head >= 20 && sb.headers == map[] && |sb.Data()| <= 65495
    requires InRange(i) && 0 <= saddr < M32 && 0 <= daddr < M32
    modifies sb, sb.buf
    ensures sb.Valid() && sb.head == old(sb.head) - 20 && sb.headers == map[Tcp := sb.head]
    ensures sb.Data() == TcpSegment(saddr, daddr, i, old(sb.Data()))
  {
    hide TcpHeader, Pseudo, IpChecksum, Sum;
    ghost var payload := sb.Data();
    var _ := sb.AddHeader(20, Tcp);
    assert sb.Data()[20..] == payload;
    sb.PutFront(TcpHeader(i, 0));
    PseudoSum(saddr, daddr, sb.payloadSize + 20);
    var initial := Accumulate(Pseudo(saddr, daddr, sb.payloadSize + 20), 0);
    var csum := Compute(sb.Data(), initial);
    assert sb.Data()[20..] == payload;
    sb.PutFront(TcpHeader(i, csum));
  }

  // ipv4::write below the address resolution.
  method WriteIp(sb: KSockbuf, saddr: int, daddr: int)
    requires sb.Valid() && sb.head >= 20 && Ip !in sb.headers && |sb.Data()| + 20 < M16
    requires 0 <= saddr < M32 && 0 <= daddr < M32
    modifies sb, sb.buf
    ensures sb.Valid() && sb.head == old(sb.head) - 20
    ensures var len := old(|sb.Data()|) + 20;
            sb.Data() == IpHeader(len, saddr, daddr, IpChecksum(IpHeader(len, saddr, daddr, 0), 0)) + old(sb.Data())
  {
    hide IpHeader, IpChecksum;
    ghost var inner := sb.Data();
    var _ := sb.AddHeader(20, Ip);
    assert sb.Data()[20..] == inner;
    var size := sb.payload - sb.head + sb.payloadSize;
    sb.PutFront(IpHeader(size % M16, saddr, daddr, 0));
    assert sb.Data()[..20] == IpHeader(size, saddr, daddr, 0);
    var csum := Compute(sb.Data()[..20], 0);
    sb.PutFront(IpHeader(size % M16, saddr, daddr, csum));
  }

  lemma PseudoSum(saddr: int, daddr: int, length: int)
    requires 0 <= saddr < M32 && 0 <= daddr < M32 && 0 <= length < M16
    ensures Sum(Pseudo(saddr, daddr, length)) < M32
  {
    PseudoSize(saddr, daddr, length);
    SumBound(Pseudo(saddr, daddr, length));
  }

  // ipv4::process_packet and tcp::process_packet move the cursors past both
  // headers; what is left is the payload the sender put in.
  method ParseHeaders(frame: array<byte>, addr: int) returns (sb: KSockbuf, r: Received)
    ensures r == Receive(frame[..], addr)
    ensures r.Delivered? ==>
              fresh(sb) && sb.Valid() && sb.buf == frame && sb.Data() == r.payload && sb.headers == map[Ip := 0, Tcp := 20]
  {
    hide IpChecksum, U16, U32;
    sb := new KSockbuf.Wrap(frame);
    var b := frame[..];
    var ok := IpPart(sb, addr);
    if !ok || b[9] != PROTO_TCP {
      return sb, Dropped;
    }
    var len := U16(b, 2) - 20;
    if len < 0 || frame.Length < 40 || 20 + len > frame.Length {
      return sb, Stray;
    }
    sb.payloadSize := len;
    var t := b[20..20 + len];
    if len < 20 || (t[12] / 16) * 4 > len {
      return sb, Stray;
    }
    var hs := (t[12] / 16) * 4;
    sb.AddParsedHeader(hs, Tcp);
    assert sb.Data() == t[hs..];
    r := Delivered(U32(b, 12), TcpInfo(U16(t, 0), U16(t, 2), U32(t, 4), U32(t, 8), t[13], U16(t, 14)), t[hs..]);
  }

  // The checks of ipv4::process_packet.
  method IpPart(sb: KSockbuf, addr: int) returns (ok: bool)
    requires sb.Valid() && sb.head == sb.payload == 0 && sb.payloadSize == sb.buf.Length && sb.headers == map[]
    modifies sb
    ensures sb.Valid() && ok == IpAccepts(sb.buf[..], addr)
    ensures ok ==> sb.head == sb.payload == 20 && sb.payloadSize == sb.buf.Length - 20 && sb.headers == map[Ip := 0]
  {
    hide IpChecksum, U32;
    var b := sb.buf[..];
    if sb.payloadSize < 20 {
      return false;
    }
    sb.AddParsedHeader(20, Ip);
    var csum := Compute(b[..20], 0);
    if csum != 0 {
      return false;
    }
    if b[0] != VERSION_IHL {
      return false;
    }
    return U32(b, 16) == addr || U32(b, 16) == BROADCAST;
  }
}
