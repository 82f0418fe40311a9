/** What a receiver reads from the packets the driver builds, and which packets the driver accepts. */
module PacketFields {
  import opened Machine
  import opened Checksum
  import opened Arp
  import opened Icmp
  import opened ArpExchange
  import opened Packets

  // ----- the headers, read at the offsets of their structures

  function Big32At(p: Bytes, k: nat): u32
    requires k + 3 < |p|
  {
    0x1_0000 * BigAt(p, k) + BigAt(p, k + 2)
  }

  datatype EthFields = EthFields(dest: Bytes, src: Bytes, kind: u16)

  function ReadEth(p: Bytes): EthFields
    requires |p| >= 14
  {
    EthFields(p[0..6], p[6..12], BigAt(p, 12))
  }

  datatype IpFields = IpFields(
    version: byte, tos: byte, totalLength: u16, id: u16, fragment: u16, ttl: byte, proto: byte, src: Bytes, dest: Bytes)

  function ReadIp(p: Bytes): IpFields
    requires |p| >= 34
  {
    IpFields(p[14], p[15], BigAt(p, 16), BigAt(p, 18), BigAt(p, 20), p[22], p[23], p[26..30], p[30..34])
  }

  datatype UdpFields = UdpFields(srcPort: u16, destPort: u16, length: u16, checksum: u16, payload: Bytes)

  function ReadUdp(p: Bytes): UdpFields
    requires |p| >= 42
  {
    UdpFields(BigAt(p, 34), BigAt(p, 36), BigAt(p, 38), BigAt(p, 40), p[42..])
  }

  datatype TcpFields = TcpFields(
    srcPort: u16, destPort: u16, seqNum: u32, ackNum: u32, headerAndFlags: u16, window: u16, urgent: u16)

  function ReadTcp(p: Bytes): TcpFields
    requires |p| >= 54
  {
    TcpFields(BigAt(p, 34), BigAt(p, 36), Big32At(p, 38), Big32At(p, 42), BigAt(p, 46), BigAt(p, 48), BigAt(p, 52))
  }

  datatype EchoFields = EchoFields(kind: byte, code: byte, id: u16, seqNum: u16, payload: Bytes)

  function ReadEcho(p: Bytes): EchoFields
    requires |p| >= 42
  {
    EchoFields(p[34], p[35], BigAt(p, 38), BigAt(p, 40), p[42..])
  }

  datatype ArpFields = ArpFields(
    hwType: u16, protoType: u16, hwLen: byte, protoLen: byte, opcode: u16,
    senderMac: Bytes, senderIp: Bytes, targetMac: Bytes, targetIp: Bytes)

  function ReadArp(p: Bytes): ArpFields
    requires |p| >= 42
  {
    ArpFields(BigAt(p, 14), BigAt(p, 16), p[18], p[19], BigAt(p, 20), p[22..28], p[28..32], p[32..38], p[38..42])
  }

  // ----- reading back what was built

  /** A 16-bit field stored in network order inside a packet is read back. */
  lemma BigReads(p: Bytes, k: nat, n: u16)
    requires k + 2 <= |p| && p[k..k + 2] == Big(n)
    ensures BigAt(p, k) == n
  {
    assert p[k] == p[k..k + 2][0] && p[k + 1] == p[k..k + 2][1];
  }

  lemma IpHeaderBytes(src: Ip, dest: Ip, totalLength: u16, id: u16, proto: byte)
    ensures var b := IpHeader(src, dest, totalLength, id, proto);
      && b[0] == 0x45 && b[1] == 0 && b[2..4] == Big(totalLength) && b[4..6] == Big(id) && b[6..8] == Big(0)
      && b[8] == 64 && b[9] == proto && b[12..16] == src && b[16..20] == dest
  {
  }

  /** Frame and IP header of every packet the driver builds. */
  lemma HeadersRead(destMac: Mac, from: Host, dest: Ip, totalLength: u16, id: u16, proto: byte, p: Bytes)
    requires |p| >= 34 && p[..34] == Headers(destMac, from, dest, totalLength, id, proto)
    ensures ReadEth(p) == EthFields(destMac, from.mac, 0x0800)
    ensures ReadIp(p) == IpFields(0x45, 0, totalLength, id, 0, 64, proto, from.ip, dest)
  {
    var b := IpHeader(from.ip, dest, totalLength, id, proto);
    IpHeaderBytes(from.ip, dest, totalLength, id, proto);
    var q := p[..34];
    assert q[0..6] == destMac && q[6..12] == from.mac && q[12..14] == Big(0x0800) && q[14..34] == b;
    assert forall i :: 0 <= i < 20 ==> p[14 + i] == q[14..34][i];
    SameSlice(p, q, 0, 6);
    SameSlice(p, q, 6, 12);
    SameSlice(p, q, 12, 14);
    BigReads(p, 12, 0x0800);
    assert p[16..18] == b[2..4] && p[18..20] == b[4..6] && p[20..22] == b[6..8];
    BigReads(p, 16, totalLength);
    BigReads(p, 18, id);
    BigReads(p, 20, 0);
    assert p[26..30] == b[12..16] && p[30..34] == b[16..20];
  }

  lemma SameSlice(p: Bytes, q: Bytes, lo: nat, hi: nat)
    requires |q| <= |p| && q == p[..|q|] && lo <= hi <= |q|
    ensures p[lo..hi] == q[lo..hi]
  {
  }

  /** Fields of the TCP header before its checksum is stored, which they all survive. */
  lemma TcpHeaderBytes(src: Ip, dest: Ip, srcPort: u16, destPort: u16, seqNum: u32, ackNum: u32, flags: byte)
    ensures var b := TcpHeader(src, dest, srcPort, destPort, seqNum, ackNum, flags);
      && b[0..2] == Big(srcPort) && b[2..4] == Big(destPort)
      && b[4..6] == Big(seqNum / 0x1_0000) && b[6..8] == Big(seqNum % 0x1_0000)
      && b[8..10] == Big(ackNum / 0x1_0000) && b[10..12] == Big(ackNum % 0x1_0000)
      && b[12..14] == Big(0x5000 + flags) && b[14..16] == Big(8192) && b[18..20] == Big(0)
  {
  }

  /** A segment reads back as the arguments it was built from, with a five-word header and a window of 8192. */
  lemma TcpReads(destMac: Mac, from: Host, dest: Ip, srcPort: u16, destPort: u16,
                 seqNum: u32, ackNum: u32, flags: byte, p: Bytes)
    requires p == TcpPacket(destMac, from, dest, srcPort, destPort, seqNum, ackNum, flags)
    ensures ReadEth(p) == EthFields(destMac, from.mac, 0x0800)
    ensures ReadIp(p) == IpFields(0x45, 0, 40, 1, 0, 64, 6, from.ip, dest)
    ensures ReadTcp(p) == TcpFields(srcPort, destPort, seqNum, ackNum, 0x5000 + flags, 8192, 0)
  {
    var b := TcpHeader(from.ip, dest, srcPort, destPort, seqNum, ackNum, flags);
    TcpHeaderBytes(from.ip, dest, srcPort, destPort, seqNum, ackNum, flags);
    assert p[..34] == Headers(destMac, from, dest, 40, 1, 6);
    HeadersRead(destMac, from, dest, 40, 1, 6, p);
    TailReads(p, b, 0, srcPort);
    TailReads(p, b, 2, destPort);
    TailReads(p, b, 4, seqNum / 0x1_0000);
    TailReads(p, b, 6, seqNum % 0x1_0000);
    TailReads(p, b, 8, ackNum / 0x1_0000);
    TailReads(p, b, 10, ackNum % 0x1_0000);
    TailReads(p, b, 12, 0x5000 + flags);
    TailReads(p, b, 14, 8192);
    TailReads(p, b, 18, 0);
  }

  /** A 16-bit field at offset k behind the IP header. */
  lemma TailReads(p: Bytes, b: Bytes, k: nat, n: u16)
    requires |p| == 34 + |b| && p[34..] == b && k + 2 <= |b| && b[k..k + 2] == Big(n)
    ensures BigAt(p, 34 + k) == n
  {
    assert p[34 + k] == p[34..][k] && p[35 + k] == p[34..][k + 1];
    assert b[k] == b[k..k + 2][0] && b[k + 1] == b[k..k + 2][1];
  }

  /** A datagram reads back as the arguments it was built from, without a checksum. */
  lemma UdpReads(destMac: Mac, from: Host, dest: Ip, srcPort: u16, destPort: u16, payload: Bytes, p: Bytes)
    requires |payload| <= MAX_FRAME && p == UdpPacket(destMac, from, dest, srcPort, destPort, payload)
    ensures ReadEth(p) == EthFields(destMac, from.mac, 0x0800)
    ensures ReadIp(p) == IpFields(0x45, 0, 28 + |payload|, 1, 0, 64, 17, from.ip, dest)
    ensures ReadUdp(p) == UdpFields(srcPort, destPort, 8 + |payload|, 0, payload)
  {
    var b := Big(srcPort) + Big(destPort) + Big(UDP_HEADER + |payload|) + [0, 0] + payload;
    assert p[..34] == Headers(destMac, from, dest, 28 + |payload|, 1, 17);
    HeadersRead(destMac, from, dest, 28 + |payload|, 1, 17, p);
    assert p[34..] == b;
    assert b[0..2] == Big(srcPort) && b[2..4] == Big(destPort) && b[4..6] == Big(8 + |payload|) && b[6..8] == Big(0);
    TailReads(p, b, 0, srcPort);
    TailReads(p, b, 2, destPort);
    TailReads(p, b, 4, 8 + |payload|);
    TailReads(p, b, 6, 0);
    assert p[42..] == b[8..];
  }

  lemma PingMessageBytes()
    ensures var b := PingMessage();
      && b[0] == 8 && b[1] == 0 && b[4..6] == Big(1234) && b[6..8] == Big(1) && b[8..] == PingPayload()
  {
    var blank := [8, 0, 0, 0] + Big(1234) + Big(1) + PingPayload();
    var c := Little(IpChecksum(blank));
    assert blank[4..6] == Big(1234) && blank[6..8] == Big(1) && blank[8..40] == PingPayload();
    PutOutside(blank, 2, c, 4, 6);
    PutOutside(blank, 2, c, 6, 8);
    PutOutside(blank, 2, c, 8, 40);
    assert PingMessage()[8..] == PingMessage()[8..40];
  }

  /** A ping reads back as an echo request with identifier 1234, sequence number 1 and the letters from A. */
  lemma PingReads(h: Host, dest: Ip, destMac: Mac, p: Bytes)
    requires p == PingPacket(h, dest, destMac)
    ensures ReadEth(p) == EthFields(destMac, h.mac, 0x0800)
    ensures ReadIp(p) == IpFields(0x45, 0, 60, 2, 0, 64, 1, h.ip, dest)
    ensures var e := ReadEcho(p);
      && e.kind == 8 && e.code == 0 && e.id == 1234 && e.seqNum == 1 && |e.payload| == 32
      && forall i :: 0 <= i < 32 ==> e.payload[i] == 65 + i % 26
  {
    var b := PingMessage();
    PingMessageBytes();
    assert p[..34] == Headers(destMac, h, dest, 60, 2, 1);
    HeadersRead(destMac, h, dest, 60, 2, 1, p);
    PingPacketFields(h, dest, destMac, p);
    assert p[34] == p[34..][0] && p[35] == p[34..][1];
    TailReads(p, b, 4, 1234);
    TailReads(p, b, 6, 1);
    assert p[42..] == b[8..];
  }

  /** An ARP frame reads back as what it was built from: Ethernet and IPv4 addresses, and nothing behind them. */
  lemma ArpReads(frameTo: Mac, from: Host, opcode: u16, targetMac: Mac, targetIp: Ip, p: Bytes)
    requires p == ArpFrame(frameTo, from, opcode, targetMac, targetIp)
    ensures ReadEth(p) == EthFields(frameTo, from.mac, 0x0806)
    ensures ReadArp(p) == ArpFields(1, 0x0800, 6, 4, opcode, from.mac, from.ip, targetMac, targetIp)
    ensures forall i :: 42 <= i < 60 ==> p[i] == 0
  {
    ArpFrameFields(frameTo, from, opcode, targetMac, targetIp, p);
    assert p[12..14] == Big(0x0806) && p[14..16] == Big(1) && p[16..18] == Big(0x0800);
    BigReads(p, 12, 0x0806);
    BigReads(p, 14, 1);
    BigReads(p, 16, 0x0800);
    BigReads(p, 20, opcode);
  }

  // ----- which frames are sent

  /** A request is broadcast and asks for the owner of the address. */
  lemma RequestReads(h: Host, target: Ip)
    ensures var p := ArpRequest(h, target);
      && ReadEth(p) == EthFields([255, 255, 255, 255, 255, 255], h.mac, 0x0806)
      && ReadArp(p) == ArpFields(1, 0x0800, 6, 4, 1, h.mac, h.ip, [0, 0, 0, 0, 0, 0], target)
  {
    ArpReads([255, 255, 255, 255, 255, 255], h, 1, [0, 0, 0, 0, 0, 0], target, ArpRequest(h, target));
  }

  /** An ARP packet is answered exactly when it is a request for the own address, and then to its sender. */
  lemma ArpAnswered(h: Host, c: Cache, p: Bytes, size: nat)
    requires size <= |p|
    ensures var e := ReceiveArp(h, c, p, size);
      && (e.answer != [] <==> size >= 42 && ReadArp(p).opcode == 1 && ReadArp(p).targetIp == h.ip)
      && (size >= 42 ==> e.cache == Add(c, ReadArp(p).senderIp, ReadArp(p).senderMac))
      && (size < 42 ==> e.cache == c)
      && (e.answer != [] ==>
            |e.answer| == 60
            && ReadEth(e.answer) == EthFields(ReadArp(p).senderMac, h.mac, 0x0806)
            && ReadArp(e.answer)
                 == ArpFields(1, 0x0800, 6, 4, 2, h.mac, h.ip, ReadArp(p).senderMac, ReadArp(p).senderIp))
  {
    if size >= 42 {
      OpcodeOne(p);
      ArpReads(p[22..28], h, 2, p[22..28], p[28..32], ArpReply(h, p));
    }
  }

  lemma OpcodeOne(p: Bytes)
    requires |p| >= 42
    ensures p[20..22] == Big(1) <==> BigAt(p, 20) == 1
  {
    if p[20..22] == Big(1) {
      BigReads(p, 20, 1);
    } else {
      assert p[20..22] == [p[20], p[21]];
    }
  }

  /** udp_send: nothing when the frame would exceed 1500 bytes, else the datagram last, behind a request if need be. */
  lemma UdpFramesAre(from: Host, known: Lookup, dest: Ip, srcPort: u16, destPort: u16, payload: Bytes)
    ensures var fs := UdpFrames(from, known, dest, srcPort, destPort, payload);
      && (fs == [] <==> |payload| > 1458)
      && (fs != [] ==>
            var last := fs[|fs| - 1];
            && |last| == 42 + |payload|
            && ReadEth(last).dest == (if known.Known? then known.mac else [255, 255, 255, 255, 255, 255])
            && ReadUdp(last) == UdpFields(srcPort, destPort, 8 + |payload|, 0, payload)
            && (if known.Known? then |fs| == 1 else |fs| == 2 && fs[0] == ArpRequest(from, dest)))
  {
    if |payload| <= 1458 {
      var destMac := MacOr(known, BROADCAST);
      UdpReads(destMac, from, dest, srcPort, destPort, payload,
               UdpPacket(destMac, from, dest, srcPort, destPort, payload));
    }
  }

  /** icmp_send_ping: the ping last and to the address found, behind a request if none was known, or the request alone. */
  lemma PingFramesAre(from: Host, known: Lookup, answered: Lookup, dest: Ip)
    ensures var fs := PingFrames(from, known, answered, dest);
      if known.Known? then fs == [PingPacket(from, dest, known.mac)]
      else
        && |fs| >= 1 && fs[0] == ArpRequest(from, dest) && (|fs| == 1 <==> answered.Unknown?)
        && (answered.Known? ==> fs == [fs[0], PingPacket(from, dest, answered.mac)])
  {
  }

  // ----- which packets are accepted

  /** A packet for this host, or for everybody, with all of its IP packet received. */
  predicate Delivered(h: Host, p: Bytes, size: nat)
    requires size <= |p|
  {
    size >= 34 && (ReadIp(p).dest == h.ip || ReadIp(p).dest == [255, 255, 255, 255]) && 14 + ReadIp(p).totalLength <= size
  }

  /** A message whose checksum field holds what its bytes without it give checks as 0. */
  lemma RecomputedChecks(message: Bytes)
    requires |message| >= 8 && Little(IpChecksum(Put(message, 2, Little(0)))) == message[2..4]
    ensures IpChecksum(message) == 0
  {
    var cleared := Put(message, 2, Little(0));
    StoredChecksumVerifies(cleared, 1);
    PutBack(message, 2, Little(0));
    assert Put(cleared, 2, message[2..4]) == message;
  }

  /** Only delivered ICMP packets count or are answered: replies that check, requests that fit; nothing else. */
  lemma ReceiveIs(h: Host, p: Bytes, size: nat)
    requires Readable(h, p, size)
    ensures match Receive(h, p, size)
      case Counted =>
        Delivered(h, p, size) && p[23] == 1 && p[IcmpStart(p)] == 0 && IpChecksum(p[IcmpStart(p)..FrameEnd(p)]) == 0
      case BadChecksum => Delivered(h, p, size) && p[23] == 1 && p[IcmpStart(p)] == 0
      case Sent(r) => Delivered(h, p, size) && p[23] == 1 && p[IcmpStart(p)] == 8 && |r| <= 1024
      case HandedOver => p[23] != 1
      case Ignored =>
        Delivered(h, p, size) ==>
          p[23] == 1 && (p[IcmpStart(p)] == 8 ==> FrameEnd(p) > 1024) && p[IcmpStart(p)] != 0
  {
    if Receive(h, p, size).Counted? {
      RecomputedChecks(p[IcmpStart(p)..FrameEnd(p)]);
    }
  }
}
