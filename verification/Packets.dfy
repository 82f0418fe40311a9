/** The packets the driver sends on its own account: pings, UDP datagrams, TCP segments. */
module Packets {
  import opened Machine
  import opened Checksum
  import opened Arp
  import opened Icmp
  import opened ArpExchange
  import opened NetStack

  const BROADCAST: Mac := [255, 255, 255, 255, 255, 255]
  const MAX_FRAME := 1500
  const UDP_HEADER := 8
  const TCP_HEADER := 20

  // ----- what is sent

  /** The frame and IP headers in front of a payload; totalLength counts the IP header and the payload. */
  function Headers(destMac: Mac, from: Host, dest: Ip, totalLength: u16, id: u16, proto: byte): (b: Bytes)
    ensures |b| == ETH_HEADER + IP_HEADER
  {
    destMac + from.mac + Big(0x0800) + IpHeader(from.ip, dest, totalLength, id, proto)
  }

  function UdpPacket(destMac: Mac, from: Host, dest: Ip, srcPort: u16, destPort: u16, payload: Bytes): (p: Bytes)
    requires |payload| <= MAX_FRAME
    ensures |p| == ETH_HEADER + IP_HEADER + UDP_HEADER + |payload|
  {
    Headers(destMac, from, dest, IP_HEADER + UDP_HEADER + |payload|, 1, 17)
    + (Big(srcPort) + Big(destPort) + Big(UDP_HEADER + |payload|) + [0, 0] + payload)
  }

  function TcpPacket(destMac: Mac, from: Host, dest: Ip, srcPort: u16, destPort: u16,
                     seqNum: u32, ackNum: u32, flags: byte): (p: Bytes)
    ensures |p| == ETH_HEADER + IP_HEADER + TCP_HEADER
  {
    Headers(destMac, from, dest, IP_HEADER + TCP_HEADER, 1, 6)
    + TcpHeader(from.ip, dest, srcPort, destPort, seqNum, ackNum, flags)
  }

  function MacOr(l: Lookup, other: Mac): Mac {
    if l.Known? then l.mac else other
  }

  /** udp_send: too long a datagram is dropped; an unknown address is asked for and the datagram broadcast. */
  function UdpFrames(from: Host, known: Lookup, dest: Ip, srcPort: u16, destPort: u16, payload: Bytes): seq<Bytes> {
    if ETH_HEADER + IP_HEADER + UDP_HEADER + |payload| > MAX_FRAME then []
    else
      (if known.Known? then [] else [ArpRequest(from, dest)])
      + [UdpPacket(MacOr(known, BROADCAST), from, dest, srcPort, destPort, payload)]
  }

  /** icmp_send_ping: an unknown address is asked for, and without an answer nothing more is sent. */
  function PingFrames(from: Host, known: Lookup, answered: Lookup, dest: Ip): seq<Bytes> {
    if known.Known? then [PingPacket(from, dest, known.mac)]
    else [ArpRequest(from, dest)] + (if answered.Known? then [PingPacket(from, dest, answered.mac)] else [])
  }

  // ----- what a receiver finds

  lemma HeadersCheck(destMac: Mac, from: Host, dest: Ip, totalLength: u16, id: u16, proto: byte, rest: Bytes)
    ensures var p := Headers(destMac, from, dest, totalLength, id, proto) + rest;
      && p[0..6] == destMac && p[6..12] == from.mac
      && IpChecksum(p[14..34]) == 0 && IcmpStart(p) == 34 && FrameEnd(p) == ETH_HEADER + totalLength
      && p[23] == proto && p[26..30] == from.ip && p[30..34] == dest
  {
    var b := IpHeader(from.ip, dest, totalLength, id, proto);
    var p := Headers(destMac, from, dest, totalLength, id, proto) + rest;
    IpHeaderIs(from.ip, dest, totalLength, id, proto);
    assert p[14..34] == b;
    assert p[14] == b[0] && p[23] == b[9];
    assert p[16] == b[2..4][0] && p[17] == b[2..4][1];
    assert p[26..30] == b[12..16] && p[30..34] == b[16..20];
  }

  /** A datagram ends where its length field says, its header checks, and the payload comes last. */
  lemma UdpPacketIs(destMac: Mac, from: Host, dest: Ip, srcPort: u16, destPort: u16, payload: Bytes)
    requires |payload| <= MAX_FRAME
    ensures var p := UdpPacket(destMac, from, dest, srcPort, destPort, payload);
      && p[0..6] == destMac && FrameEnd(p) == |p| && IpChecksum(p[14..34]) == 0
      && p[26..30] == from.ip && p[30..34] == dest
      && p[38..40] == Big(|p| - IcmpStart(p)) && p[42..] == payload
  {
    var datagram := Big(srcPort) + Big(destPort) + Big(UDP_HEADER + |payload|) + [0, 0] + payload;
    HeadersCheck(destMac, from, dest, IP_HEADER + UDP_HEADER + |payload|, 1, 17, datagram);
    var p := UdpPacket(destMac, from, dest, srcPort, destPort, payload);
    assert p[34..] == datagram;
    assert p[38..40] == datagram[4..6] && p[42..] == datagram[8..];
  }

  /** Both checksums of a segment are right, the TCP one over the addresses its IP header carries. */
  lemma TcpPacketChecks(destMac: Mac, from: Host, dest: Ip, srcPort: u16, destPort: u16,
                        seqNum: u32, ackNum: u32, flags: byte)
    ensures var p := TcpPacket(destMac, from, dest, srcPort, destPort, seqNum, ackNum, flags);
      && FrameEnd(p) == |p| && IpChecksum(p[14..34]) == 0
      && IpChecksum(p[26..30] + p[30..34] + [0, p[23]] + Big(|p| - 34) + p[34..]) == 0
  {
    var segment := TcpHeader(from.ip, dest, srcPort, destPort, seqNum, ackNum, flags);
    HeadersCheck(destMac, from, dest, IP_HEADER + TCP_HEADER, 1, 6, segment);
    TcpHeaderChecks(from.ip, dest, srcPort, destPort, seqNum, ackNum, flags);
    var p := TcpPacket(destMac, from, dest, srcPort, destPort, seqNum, ackNum, flags);
    assert p[34..] == segment;
    assert p[26..30] + p[30..34] + [0, p[23]] + Big(|p| - 34) == PseudoHeader(from.ip, dest);
  }

  /** The owner answers the ping, and the asker counts the answer. */
  predicate Answered(asker: Host, owner: Host, ping: Bytes) {
    && |ping| == 74 && WellFormed(ping) && FrameEnd(ping) == 74
    && Receive(owner, ping, 74) == Sent(EchoReply(ping, owner))
    && WellFormed(EchoReply(ping, owner)) && Receive(asker, EchoReply(ping, owner), 74) == Counted
  }

  lemma PingAnswered(asker: Host, owner: Host, destMac: Mac)
    ensures Answered(asker, owner, PingPacket(asker, owner.ip, destMac))
  {
    PingExchange(asker, owner, destMac, PingPacket(asker, owner.ip, destMac));
  }

  /** A ping to a host not yet known: request, reply, ping and echo, and the answer is counted. */
  lemma ColdPing(asker: Host, owner: Host, askerCache: Cache, ownerCache: Cache)
    requires Resolve(askerCache, owner.ip) == Unknown && FindFree(askerCache, 0) < ARP_CACHE_SIZE
    ensures var request := ArpRequest(asker, owner.ip);
      var answer := ReceiveArp(owner, ownerCache, request, ARP_PADDED).answer;
      && |answer| == ARP_PADDED
      && var later := Resolve(ReceiveArp(asker, askerCache, answer, ARP_PADDED).cache, owner.ip);
         var ping := PingPacket(asker, owner.ip, owner.mac);
         PingFrames(asker, Unknown, later, owner.ip) == [request, ping] && Answered(asker, owner, ping)
  {
    ArpResolves(asker, owner, askerCache, ownerCache);
    PingAnswered(asker, owner, owner.mac);
  }

  // ----- filling the buffers

  /** Fields of the frame and IP headers, then the IP checksum. */
  method FillHeaders(buffer: array<byte>, destMac: Mac, from: Host, dest: Ip, totalLength: u16, id: u16, proto: byte)
    requires buffer.Length >= ETH_HEADER + IP_HEADER
    modifies buffer
    ensures buffer[..34] == Headers(destMac, from, dest, totalLength, id, proto)
  {
    ghost var frame := destMac + from.mac + Big(0x0800);
    ghost var blank := [0x45, 0] + Big(totalLength) + Big(id) + [0, 0, 64, proto, 0, 0] + from.ip + dest;
    var k := Field(buffer, 0, destMac + from.mac + Big(0x0800));
    k := Field(buffer, k, [0x45, 0] + Big(totalLength) + Big(id) + [0, 0, 64, proto, 0, 0] + from.ip + dest);
    assert buffer[..34] == frame + blank;
    PartSealed(frame, blank, 10);
    Seal(buffer, 34, 14, 34, 24);
  }

  /** Clearing a field that is zero already. */
  lemma PutZero(b: Bytes, k: nat)
    requires k + 2 <= |b| && b[k] == b[k + 1] == 0
    ensures Put(b, k, Little(0)) == b
  {
  }

  lemma SliceBehind(front: Bytes, part: Bytes, all: Bytes, k: nat)
    requires all == front + part && k < |part|
    ensures all[|front|..|front| + |part|] == part && all[|front| + k] == part[k]
  {
  }

  /** Sealing a part behind what precedes it in the buffer seals that part alone. */
  lemma PartSealed(front: Bytes, part: Bytes, k: nat)
    requires k + 2 <= |part| && part[k] == part[k + 1] == 0
    ensures var n := |front|;
      var cleared := Put(front + part, n + k, Little(0));
      Put(cleared, n + k, Little(IpChecksum(cleared[n..n + |part|]))) == front + Put(part, k, Little(IpChecksum(part)))
  {
    var all := front + part;
    SliceBehind(front, part, all, k);
    SliceBehind(front, part, all, k + 1);
    PutZero(all, |front| + k);
    PutBehind(front, part, k, Little(IpChecksum(part)));
  }

  class Sender {
    const host: Host
    const cache: ArpCache

    constructor (h: Host, c: ArpCache)
      ensures host == h && cache == c
    {
      host, cache := h, c;
    }

    method BuildPing(dest: Ip, destMac: Mac) returns (p: Bytes)
      ensures p == PingPacket(host, dest, destMac)
    {
      var letters := FillPayload();
      var packet := new byte[1500];
      FillHeaders(packet, destMac, host, dest, 60, 2, 1);
      ghost var headers := packet[..34];
      var message := [8, 0, 0, 0] + Big(1234) + Big(1) + letters;
      PartSealed(headers, message, 2);
      var k := Field(packet, 34, message);
      Seal(packet, 74, 34, 74, 36);
      p := packet[..74];
    }

    method FillPayload() returns (letters: Bytes)
      ensures letters == PingPayload()
    {
      var payload := new byte[32];
      for i := 0 to 32
        invariant forall j :: 0 <= j < i ==> payload[j] == 65 + j % 26
      {
        payload[i] := 65 + i % 26;
      }
      letters := payload[..];
    }

    /** answered is what the polling loop saw last. */
    method Ping(dest: Ip, answered: Lookup) returns (frames: seq<Bytes>)
      requires cache.Valid()
      ensures frames == PingFrames(host, Resolve(Replay(cache.history), dest), answered, dest)
    {
      ResolveIsLatest(cache.history, dest);
      var known := cache.Lookup(dest);
      frames := [];
      var destMac := MacOr(known, BROADCAST);
      if known.Unknown? {
        var request := FillArp(BROADCAST, host, 1, [0, 0, 0, 0, 0, 0], dest);
        frames := [request];
        if answered.Unknown? {
          return;
        }
        destMac := answered.mac;
      }
      var p := BuildPing(dest, destMac);
      frames := frames + [p];
    }

    method SendUdp(dest: Ip, srcPort: u16, destPort: u16, payload: Bytes) returns (frames: seq<Bytes>)
      requires cache.Valid()
      ensures frames == UdpFrames(host, Resolve(Replay(cache.history), dest), dest, srcPort, destPort, payload)
    {
      ResolveIsLatest(cache.history, dest);
      frames := [];
      if 42 + |payload| > 1500 {
        return;
      }
      var known := cache.Lookup(dest);
      if known.Unknown? {
        var request := FillArp(BROADCAST, host, 1, [0, 0, 0, 0, 0, 0], dest);
        frames := [request];
      }
      var packet := new byte[1500];
      FillHeaders(packet, MacOr(known, BROADCAST), host, dest, 28 + |payload|, 1, 17);
      var k := Field(packet, 34, Big(srcPort) + Big(destPort) + Big(8 + |payload|) + [0, 0] + payload);
      frames := frames + [packet[..k]];
    }

    method SendTcp(dest: Ip, srcPort: u16, destPort: u16, seqNum: u32, ackNum: u32, flags: byte) returns (p: Bytes)
      requires cache.Valid()
      ensures p == TcpPacket(MacOr(Resolve(Replay(cache.history), dest), BROADCAST), host, dest,
                             srcPort, destPort, seqNum, ackNum, flags)
    {
      ResolveIsLatest(cache.history, dest);
      var known := cache.Lookup(dest);
      var packet := new byte[1500];
      FillHeaders(packet, MacOr(known, BROADCAST), host, dest, 40, 1, 6);
      ghost var headers := packet[..34];
      var tcp := Big(srcPort) + Big(destPort) + Big32(seqNum) + Big32(ackNum) + Big(0x5000 + flags) + Big(8192) + [0, 0, 0, 0];
      var k := Field(packet, 34, tcp);
      var c := ChecksumWithPseudo(dest, tcp);
      PutBehind(headers, tcp, 16, Little(c));
      StorePrefix(packet, 54, 50, Little(c));
      p := packet[..54];
    }

    /** The checksum over a temporary copy of the pseudo header and the segment. */
    method ChecksumWithPseudo(dest: Ip, tcp: Bytes) returns (c: u16)
      requires |tcp| == TCP_HEADER
      ensures c == IpChecksum(PseudoHeader(host.ip, dest) + tcp)
    {
      var temp := new byte[32];
      var k := Field(temp, 0, PseudoHeader(host.ip, dest));
      k := Field(temp, k, tcp);
      assert temp[..32] == PseudoHeader(host.ip, dest) + tcp;
      assert temp[..32][0..32] == temp[..32];
      c := ChecksumOf(temp, 32, 0, 32);
    }
  }
}
