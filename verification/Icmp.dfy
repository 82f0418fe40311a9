/** The echo exchange: how the driver builds requests, answers them and accepts the answers. */
module Icmp {
  import opened Machine
  import opened Checksum
  import opened Arp

  const ETH_HEADER := 14
  const IP_HEADER := 20
  const ICMP_HEADER := 8

  /** The driver's own addresses. */
  datatype Host = Host(ip: Ip, mac: Mac)

  // ----- header fields, by their offsets in the frame

  function BigAt(p: Bytes, k: nat): u16
    requires k + 1 < |p|
  {
    0x100 * (p[k] as int) + p[k + 1]
  }

  function HeaderLength(p: Bytes): nat
    requires |p| >= ETH_HEADER + IP_HEADER
  {
    p[14] % 16 * 4
  }

  function TotalLength(p: Bytes): nat
    requires |p| >= ETH_HEADER + IP_HEADER
  {
    BigAt(p, 16)
  }

  /** Where the ICMP message starts. */
  function IcmpStart(p: Bytes): nat
    requires |p| >= ETH_HEADER + IP_HEADER
  {
    ETH_HEADER + HeaderLength(p)
  }

  function FrameEnd(p: Bytes): nat
    requires |p| >= ETH_HEADER + IP_HEADER
  {
    ETH_HEADER + TotalLength(p)
  }

  predicate AddressedTo(p: Bytes, h: Host)
    requires |p| >= ETH_HEADER + IP_HEADER
  {
    p[30..34] == h.ip || p[30..34] == [255, 255, 255, 255]
  }

  /** The lengths of an ICMP packet are consistent: a full IP header, a full ICMP header. */
  predicate WellFormed(p: Bytes) {
    |p| >= ETH_HEADER + IP_HEADER && p[23] == 1
    && HeaderLength(p) >= IP_HEADER && TotalLength(p) >= HeaderLength(p) + ICMP_HEADER
  }

  /** The message lies inside its IP packet, which is as long as a header; the header length field may be anything. */
  predicate Contained(p: Bytes) {
    |p| >= ETH_HEADER + IP_HEADER && p[23] == 1
    && TotalLength(p) >= IP_HEADER && TotalLength(p) >= HeaderLength(p) + ICMP_HEADER
  }

  // ----- the echo reply

  /** Frame addresses, IP addresses and IP checksum of the reply, over a copy of the request. */
  function ReplyHeaders(p: Bytes, h: Host): (r: Bytes)
    requires Contained(p) && FrameEnd(p) <= |p|
    ensures |r| == FrameEnd(p)
  {
    var copy := p[..FrameEnd(p)];
    var eth := Put(Put(copy, 0, p[6..12]), 6, h.mac);
    var ip := Put(Put(Put(eth, 30, p[26..30]), 26, h.ip), 24, Little(0));
    Put(ip, 24, Little(IpChecksum(ip[14..IcmpStart(p)])))
  }

  /** Type 0 and a fresh checksum for the ICMP message that starts at off. */
  function AnswerIcmp(r: Bytes, off: nat): (a: Bytes)
    requires off + ICMP_HEADER <= |r|
    ensures |a| == |r|
  {
    var cleared := Put(Put(r, off, [0]), off + 2, Little(0));
    Put(cleared, off + 2, Little(IpChecksum(cleared[off..])))
  }

  function EchoReply(p: Bytes, h: Host): (r: Bytes)
    requires Contained(p) && FrameEnd(p) <= |p|
    ensures |r| == FrameEnd(p)
  {
    AnswerIcmp(ReplyHeaders(p, h), IcmpStart(p))
  }

  /** Handed over is a packet of another protocol, which is left to the UDP and TCP code. */
  datatype Action = Ignored | HandedOver | Sent(reply: Bytes) | Counted | BadChecksum

  /** The ICMP messages that reach the handler lie inside the IP packet they came in. */
  predicate Readable(h: Host, p: Bytes, size: nat) {
    size <= |p|
    && (ETH_HEADER + IP_HEADER <= size && AddressedTo(p, h) && p[23] == 1 && FrameEnd(p) <= size ==> Contained(p))
  }

  /** handle_ipv4_packet on `size` received bytes. */
  function Receive(h: Host, p: Bytes, size: nat): Action
    requires Readable(h, p, size)
  {
    if size < ETH_HEADER + IP_HEADER then Ignored
    else if !AddressedTo(p, h) then Ignored
    else if p[23] != 1 then HandedOver
    else if size < FrameEnd(p) then Ignored
    else
      var off := IcmpStart(p);
      if p[off] == 8 then (if FrameEnd(p) > 1024 then Ignored else Sent(EchoReply(p, h)))
      else if p[off] == 0 then
        var message := p[off..FrameEnd(p)];
        if Little(IpChecksum(Put(message, 2, Little(0)))) == message[2..4] then Counted else BadChecksum
      else Ignored
  }

  // ----- slices of updated buffers

  lemma PutOutside(b: Bytes, k: nat, v: Bytes, lo: nat, hi: nat)
    requires k + |v| <= |b| && lo <= hi <= |b| && (hi <= k || k + |v| <= lo)
    ensures Put(b, k, v)[lo..hi] == b[lo..hi]
  {
  }

  lemma PutInside(b: Bytes, k: nat, v: Bytes, lo: nat, hi: nat)
    requires k + |v| <= |b| && lo <= k && k + |v| <= hi <= |b|
    ensures Put(b, k, v)[lo..hi] == Put(b[lo..hi], k - lo, v)
  {
  }

  lemma PutExact(b: Bytes, k: nat, v: Bytes)
    requires k + |v| <= |b|
    ensures Put(b, k, v)[k..k + |v|] == v
  {
  }

  /** Storing the checksum of a slice into a zeroed field of it: the slice checks as 0. */
  lemma SealedSlice(b: Bytes, lo: nat, hi: nat, k: nat)
    requires lo + 2 * k + 2 <= hi <= |b| && b[lo + 2 * k] == 0 && b[lo + 2 * k + 1] == 0
    ensures var c := IpChecksum(b[lo..hi]);
      var sealed := Put(b, lo + 2 * k, Little(c))[lo..hi];
      && IpChecksum(sealed) == 0
      && Put(sealed, 2 * k, Little(0)) == b[lo..hi] && sealed[2 * k..2 * k + 2] == Little(c)
  {
    var slice := b[lo..hi];
    var c := IpChecksum(slice);
    PutInside(b, lo + 2 * k, Little(c), lo, hi);
    StoredChecksumVerifies(slice, k);
    PutExact(slice, 2 * k, Little(c));
    PutBack(slice, 2 * k, Little(c));
  }

  lemma PutBack(b: Bytes, k: nat, v: Bytes)
    requires k + |v| <= |b|
    ensures Put(Put(b, k, v), k, b[k..k + |v|]) == b
  {
  }

  /** The reply's addresses turned around, and everything else copied. */
  lemma ReplyHeadersAre(p: Bytes, h: Host, r: Bytes)
    requires WellFormed(p) && FrameEnd(p) <= |p| && r == ReplyHeaders(p, h)
    ensures r[0..6] == p[6..12] && r[6..12] == h.mac
    ensures r[12..24] == p[12..24]
    ensures r[26..30] == h.ip && r[30..34] == p[26..30]
    ensures r[34..] == p[34..FrameEnd(p)]
  {
  }

  lemma ReplyHeadersCheck(p: Bytes, h: Host)
    requires WellFormed(p) && FrameEnd(p) <= |p|
    ensures IpChecksum(ReplyHeaders(p, h)[14..IcmpStart(p)]) == 0
  {
    var eth := Put(Put(p[..FrameEnd(p)], 0, p[6..12]), 6, h.mac);
    var ip := Put(Put(Put(eth, 30, p[26..30]), 26, h.ip), 24, Little(0));
    SealedSlice(ip, 14, IcmpStart(p), 5);
  }

  /** The answered message has type 0 and keeps everything behind the checksum. */
  lemma AnswerIcmpIs(r: Bytes, off: nat, a: Bytes)
    requires off + ICMP_HEADER <= |r| && a == AnswerIcmp(r, off)
    ensures a[..off] == r[..off] && a[off] == 0 && a[off + 1] == r[off + 1] && a[off + 4..] == r[off + 4..]
  {
  }

  lemma AnswerIcmpChecks(r: Bytes, off: nat)
    requires off + ICMP_HEADER <= |r|
    ensures var message := AnswerIcmp(r, off)[off..];
      IpChecksum(message) == 0 && Little(IpChecksum(Put(message, 2, Little(0)))) == message[2..4]
  {
    var cleared := Put(Put(r, off, [0]), off + 2, Little(0));
    assert cleared[off + 2] == 0 && cleared[off + 3] == 0;
    SealedSlice(cleared, off, |cleared|, 1);
    assert cleared[off..|cleared|] == cleared[off..];
    var a := AnswerIcmp(r, off);
    assert a[off..|cleared|] == a[off..];
  }

  // ----- the exchange

  /** A well-formed echo request that host s will answer. */
  predicate EchoRequest(p: Bytes, size: nat, s: Host) {
    WellFormed(p) && FrameEnd(p) <= size <= |p| && FrameEnd(p) <= 1024
    && AddressedTo(p, s) && p[IcmpStart(p)] == 8
  }

  /** The reply keeps what RFC 792 asks for: identifier, sequence number and data. */
  lemma ReplyIs(p: Bytes, s: Host, r: Bytes)
    requires WellFormed(p) && FrameEnd(p) <= |p| && r == EchoReply(p, s)
    ensures var off := IcmpStart(p);
      && r[0..6] == p[6..12] && r[6..12] == s.mac                  // frame: back to the sender
      && r[26..30] == s.ip && r[30..34] == p[26..30]               // packet: back to the requester
      && r[12..24] == p[12..24]                                    // same type, lengths, protocol
      && r[34..off] == p[34..off]                                  // same options
      && r[off] == 0 && r[off + 1] == p[off + 1]                   // echo reply, same code
      && r[off + 4..] == p[off + 4..FrameEnd(p)]                   // identifier, sequence number, data
  {
    var off := IcmpStart(p);
    var hs := ReplyHeaders(p, s);
    ReplyHeadersAre(p, s, hs);
    AnswerIcmpIs(hs, off, r);
    SliceOf(hs, r, off, 0, 6);
    SliceOf(hs, r, off, 6, 12);
    SliceOf(hs, r, off, 12, 24);
    SliceOf(hs, r, off, 26, 30);
    SliceOf(hs, r, off, 30, 34);
    SliceOf(hs, r, off, 34, off);
    assert hs[34..off] == hs[34..][..off - 34] == p[34..off];
    assert hs[off + 1] == hs[34..][off + 1 - 34] && hs[off + 4..] == hs[34..][off + 4 - 34..];
  }

  lemma SliceOf(a: Bytes, b: Bytes, n: nat, lo: nat, hi: nat)
    requires n <= |a| == |b| && a[..n] == b[..n] && lo <= hi <= n
    ensures a[lo..hi] == b[lo..hi]
  {
    assert a[lo..hi] == a[..n][lo..hi] && b[lo..hi] == b[..n][lo..hi];
  }

  /** Both checksums of the reply are right. */
  lemma ReplyChecks(p: Bytes, s: Host, r: Bytes)
    requires WellFormed(p) && FrameEnd(p) <= |p| && r == EchoReply(p, s)
    ensures IpChecksum(r[14..IcmpStart(p)]) == 0 && IpChecksum(r[IcmpStart(p)..]) == 0
    ensures Little(IpChecksum(Put(r[IcmpStart(p)..], 2, Little(0)))) == r[IcmpStart(p)..][2..4]
  {
    var off := IcmpStart(p);
    var hs := ReplyHeaders(p, s);
    ReplyHeadersCheck(p, s);
    AnswerIcmpIs(hs, off, r);
    SliceOf(hs, r, off, 14, off);
    AnswerIcmpChecks(hs, off);
  }

  lemma SameLengths(p: Bytes, r: Bytes)
    requires |p| >= ETH_HEADER + IP_HEADER && |r| >= ETH_HEADER + IP_HEADER && r[12..24] == p[12..24]
    ensures HeaderLength(r) == HeaderLength(p) && TotalLength(r) == TotalLength(p) && r[23] == p[23]
  {
    assert forall i :: 12 <= i < 24 ==> r[i] == r[12..24][i - 12] && p[i] == p[12..24][i - 12];
  }

  /** A complete echo reply with the right checksum is counted. */
  lemma Accepts(h: Host, r: Bytes, off: nat, message: Bytes)
    requires WellFormed(r) && FrameEnd(r) == |r| && AddressedTo(r, h) && off == IcmpStart(r) && r[off] == 0
    requires message == r[off..] && Little(IpChecksum(Put(message, 2, Little(0)))) == message[2..4]
    ensures Receive(h, r, |r|) == Counted
  {
    assert r[off..FrameEnd(r)] == message;
  }

  /** The echo exchange of RFC 792: the reply is sent to the requester, and the requester counts it. */
  lemma EchoExchange(p: Bytes, size: nat, s: Host, requester: Host)
    requires EchoRequest(p, size, s) && p[26..30] == requester.ip
    ensures Receive(s, p, size) == Sent(EchoReply(p, s))
    ensures WellFormed(EchoReply(p, s))
    ensures Receive(requester, EchoReply(p, s), FrameEnd(p)) == Counted
  {
    var r := EchoReply(p, s);
    ReplyIs(p, s, r);
    SameLengths(p, r);
    ReplyChecks(p, s, r);
    Accepts(requester, r, IcmpStart(p), r[IcmpStart(p)..]);
  }

  // ----- building requests and other packets

  /** An IPv4 header without options, its checksum stored last. */
  function IpHeader(src: Ip, dest: Ip, totalLength: u16, id: u16, proto: byte): (b: Bytes)
    ensures |b| == IP_HEADER
  {
    var blank := [0x45, 0] + Big(totalLength) + Big(id) + [0, 0, 64, proto, 0, 0] + src + dest;
    Put(blank, 10, Little(IpChecksum(blank)))
  }

  /** Every header the driver builds checks as 0 and carries its fields where the receiver looks for them. */
  lemma IpHeaderIs(src: Ip, dest: Ip, totalLength: u16, id: u16, proto: byte)
    ensures var b := IpHeader(src, dest, totalLength, id, proto);
      && IpChecksum(b) == 0
      && b[0] == 0x45 && b[2..4] == Big(totalLength) && b[9] == proto && b[12..16] == src && b[16..20] == dest
  {
    var blank := [0x45, 0] + Big(totalLength) + Big(id) + [0, 0, 64, proto, 0, 0] + src + dest;
    assert Word(blank, 5) == 0;
    StoredChecksumVerifies(blank, 5);
  }

  function PingPayload(): (b: Bytes)
    ensures |b| == 32
  {
    seq(32, i requires 0 <= i => 65 + i % 26)
  }

  /** The ICMP part of a ping: type 8, identifier 1234, sequence number 1, 32 letters. */
  function PingMessage(): (b: Bytes)
    ensures |b| == ICMP_HEADER + 32
  {
    var blank := [8, 0, 0, 0] + Big(1234) + Big(1) + PingPayload();
    Put(blank, 2, Little(IpChecksum(blank)))
  }

  /** icmp_send_ping, once the destination's hardware address is known. */
  function PingPacket(h: Host, dest: Ip, destMac: Mac): (p: Bytes)
    ensures |p| == 74
  {
    destMac + h.mac + Big(0x0800) + IpHeader(h.ip, dest, 60, 2, 1) + PingMessage()
  }

  lemma PingPacketFields(h: Host, dest: Ip, destMac: Mac, p: Bytes)
    requires p == PingPacket(h, dest, destMac)
    ensures p[14..34] == IpHeader(h.ip, dest, 60, 2, 1) && p[34..] == PingMessage()
  {
  }

  /** A ping is a well-formed echo request to its destination, from the sender. */
  lemma PingIsRequest(h: Host, s: Host, destMac: Mac)
    ensures var p := PingPacket(h, s.ip, destMac);
      EchoRequest(p, |p|, s) && p[26..30] == h.ip && IcmpStart(p) == 34 && FrameEnd(p) == 74
  {
    var p := PingPacket(h, s.ip, destMac);
    PingPacketFields(h, s.ip, destMac, p);
    IpHeaderIs(h.ip, s.ip, 60, 2, 1);
    var b := IpHeader(h.ip, s.ip, 60, 2, 1);
    assert forall i :: 0 <= i < 20 ==> p[14 + i] == p[14..34][i];
    assert p[14] == b[0] && p[23] == b[9];
    assert p[16] == b[2..4][0] && p[17] == b[2..4][1];
    assert p[26..30] == b[12..16] && p[30..34] == b[16..20];
    assert p[34] == p[34..][0] == 8;
  }

  /** A whole ping between two driver hosts: answered by one, counted by the other. */
  lemma PingExchange(h: Host, s: Host, destMac: Mac, p: Bytes)
    requires p == PingPacket(h, s.ip, destMac)
    ensures EchoRequest(p, 74, s) && FrameEnd(p) == 74
    ensures Receive(s, p, 74) == Sent(EchoReply(p, s)) && WellFormed(EchoReply(p, s))
    ensures Receive(h, EchoReply(p, s), 74) == Counted
  {
    PingIsRequest(h, s, destMac);
    EchoExchange(p, 74, s, h);
  }

  // ----- TCP segments

  /** The pseudo header a TCP checksum also covers. */
  function PseudoHeader(src: Ip, dest: Ip): (b: Bytes)
    ensures |b| == 12
  {
    src + dest + [0, 6] + Big(20)
  }

  function TcpHeader(src: Ip, dest: Ip, srcPort: u16, destPort: u16, seqNum: u32, ackNum: u32, flags: byte): (b: Bytes)
    ensures |b| == 20
  {
    var blank := Big(srcPort) + Big(destPort) + Big32(seqNum) + Big32(ackNum) + Big(0x5000 + flags) + Big(8192) + [0, 0, 0, 0];
    Put(blank, 16, Little(IpChecksum(PseudoHeader(src, dest) + blank)))
  }

  /** Every segment the responder sends checks as 0 together with its pseudo header. */
  lemma TcpHeaderChecks(src: Ip, dest: Ip, srcPort: u16, destPort: u16, seqNum: u32, ackNum: u32, flags: byte)
    ensures IpChecksum(PseudoHeader(src, dest) + TcpHeader(src, dest, srcPort, destPort, seqNum, ackNum, flags)) == 0
  {
    var blank := Big(srcPort) + Big(destPort) + Big32(seqNum) + Big32(ackNum) + Big(0x5000 + flags) + Big(8192) + [0, 0, 0, 0];
    var pseudo := PseudoHeader(src, dest);
    var c := IpChecksum(pseudo + blank);
    PutBehind(pseudo, blank, 16, Little(c));
    assert Word(pseudo + blank, 14) == 0;
    StoredChecksumVerifies(pseudo + blank, 14);
  }

  lemma PutBehind(a: Bytes, b: Bytes, k: nat, v: Bytes)
    requires k + |v| <= |b|
    ensures a + Put(b, k, v) == Put(a + b, |a| + k, v)
  {
  }
}
