/** The packet handlers of the network driver, filling their buffers in place. */
module NetStack {
  import opened Machine
  import opened Checksum
  import opened Arp
  import opened Icmp
  import opened ArpExchange

  /** memcpy of the bytes v into a buffer. */
  method Store(buffer: array<byte>, off: nat, v: Bytes)
    requires off + |v| <= buffer.Length
    modifies buffer
    ensures buffer[..] == Put(old(buffer[..]), off, v)
  {
    for i := 0 to |v|
      invariant forall k :: 0 <= k < buffer.Length ==>
        buffer[k] == if off <= k < off + i then v[k - off] else old(buffer[k])
    {
      buffer[off + i] := v[i];
    }
  }

  /** Store into the first n bytes of a larger buffer. */
  method StorePrefix(buffer: array<byte>, n: nat, off: nat, v: Bytes)
    requires off + |v| <= n <= buffer.Length
    modifies buffer
    ensures buffer[..n] == Put(old(buffer[..n]), off, v)
  {
    Store(buffer, off, v);
  }

  /** The checksum of bytes lo to hi of a message that fills the first n bytes of a buffer. */
  method ChecksumOf(buffer: array<byte>, n: nat, lo: nat, hi: nat) returns (c: u16)
    requires lo <= hi <= n <= buffer.Length && hi - lo <= 0x1_0000
    ensures c == IpChecksum(buffer[..n][lo..hi])
  {
    c := ComputeChecksum(buffer, lo, hi - lo);
    assert buffer[lo..lo + (hi - lo)] == buffer[..n][lo..hi];
  }

  /** Clear a checksum field at k and store the checksum of the bytes from lo to hi there. */
  method Seal(buffer: array<byte>, n: nat, lo: nat, hi: nat, k: nat)
    requires k + 2 <= n <= buffer.Length && lo <= hi <= n && hi - lo <= 0x1_0000
    modifies buffer
    ensures var cleared := Put(old(buffer[..n]), k, Little(0));
      buffer[..n] == Put(cleared, k, Little(IpChecksum(cleared[lo..hi])))
  {
    StorePrefix(buffer, n, k, Little(0));
    var c := ChecksumOf(buffer, n, lo, hi);
    StorePrefix(buffer, n, k, Little(c));
  }

  /** Make an echo reply of the message at off: type 0, then its checksum. */
  method AnswerMessage(buffer: array<byte>, n: nat, off: nat)
    requires off + ICMP_HEADER <= n <= buffer.Length && n - off <= 0x1_0000
    modifies buffer
    ensures buffer[..n] == AnswerIcmp(old(buffer[..n]), off)
  {
    StorePrefix(buffer, n, off, [0]);
    ghost var cleared := Put(buffer[..n], off + 2, Little(0));
    assert cleared[off..n] == cleared[off..];
    Seal(buffer, n, off, n, off + 2);
  }

  /** Turn a copy of the request around: frame and IP addresses, then the IP checksum. */
  method TurnAround(reply: array<byte>, n: nat, p: Bytes, h: Host)
    requires Contained(p) && FrameEnd(p) == n <= |p| && n <= reply.Length && reply[..n] == p[..n]
    modifies reply
    ensures reply[..n] == ReplyHeaders(p, h)
  {
    assert reply[6..12] == reply[..n][6..12] == p[6..12];
    StorePrefix(reply, n, 0, reply[6..12]);
    PutOutside(p[..n], 0, p[6..12], 26, 30);
    PutOutside(reply[..n], 6, h.mac, 26, 30);
    StorePrefix(reply, n, 6, h.mac);
    assert reply[26..30] == reply[..n][26..30] == p[..n][26..30] == p[26..30];
    StorePrefix(reply, n, 30, reply[26..30]);
    StorePrefix(reply, n, 26, h.ip);
    Seal(reply, n, ETH_HEADER, IcmpStart(p), 24);
  }

  class Station {
    const host: Host
    var pingReplies: u32

    constructor (h: Host)
      ensures host == h && pingReplies == 0
    {
      host := h;
      pingReplies := 0;
    }

    /** The echo branch of handle_ipv4_packet: build the reply in a 1024-byte buffer. */
    method AnswerEcho(packet: array<byte>) returns (reply: Bytes)
      requires Contained(packet[..]) && FrameEnd(packet[..]) <= packet.Length && FrameEnd(packet[..]) <= 1024
      ensures reply == EchoReply(packet[..], host)
    {
      var p := packet[..];
      var off, n := IcmpStart(p), FrameEnd(p);
      var buffer := new byte[1024];
      assert packet[..] == p;
      StorePrefix(buffer, n, 0, p[..n]);
      assert buffer[..n] == p[..n];
      TurnAround(buffer, n, p, host);
      AnswerMessage(buffer, n, off);
      reply := buffer[..n];
    }

    /** The reply branch: recompute the checksum with the field cleared, then put the field back. */
    method CheckEcho(packet: array<byte>, off: nat, end: nat) returns (ok: bool)
      requires off + ICMP_HEADER <= end <= packet.Length && end - off <= 0x1_0000
      modifies packet
      ensures packet[..] == old(packet[..])
      ensures var message := packet[off..end];
        ok <==> Little(IpChecksum(Put(message, 2, Little(0)))) == message[2..4]
    {
      var n := packet.Length;
      ghost var b := packet[..n];
      var received := packet[..n][off + 2..off + 4];
      StorePrefix(packet, n, off + 2, Little(0));
      PutInside(b, off + 2, Little(0), off, end);
      var calculated := ChecksumOf(packet, n, off, end);
      StorePrefix(packet, n, off + 2, received);
      PutBack(b, off + 2, Little(0));
      assert packet[..n] == b && packet[..] == packet[..n] && packet[off..end] == b[off..end];
      assert b[off..end][2..4] == received;
      ok := received == Little(calculated);
    }

    /** handle_ipv4_packet up to the other protocols: the packet buffer is left as it was. */
    method HandleIpv4(packet: array<byte>, size: nat) returns (action: Action)
      requires Readable(host, packet[..], size)
      modifies this`pingReplies, packet
      ensures packet[..] == old(packet[..])
      ensures action == Receive(host, packet[..], size)
      ensures pingReplies == if action.Counted? then Wrap32(old(pingReplies) + 1) else old(pingReplies)
    {
      if size < ETH_HEADER + IP_HEADER {
        return Ignored;
      }
      var p := packet[..];
      if !AddressedTo(p, host) {
        return Ignored;
      }
      if packet[23] != 1 {
        return HandedOver;
      }
      var off, end := IcmpStart(p), FrameEnd(p);
      if size < end {
        return Ignored;
      }
      if packet[off] == 8 {
        if end > 1024 {
          return Ignored;
        }
        var reply := AnswerEcho(packet);
        return Sent(reply);
      } else if packet[off] == 0 {
        var ok := CheckEcho(packet, off, end);
        assert packet[off..end] == p[off..end];
        if !ok {
          return BadChecksum;
        }
        pingReplies := Wrap32(pingReplies + 1);
        return Counted;
      }
      return Ignored;
    }

    /** handle_arp_packet: learn the sender, and answer a request for the own address. */
    method HandleArp(cache: ArpCache, packet: array<byte>, size: nat) returns (answer: Bytes)
      requires size <= packet.Length && cache.Valid()
      modifies cache, cache.entries
      ensures cache.Valid()
      ensures var effect := ReceiveArp(host, old(Replay(cache.history)), old(packet[..]), size);
        Replay(cache.history) == effect.cache && answer == effect.answer
      ensures cache.history == if size < ARP_FRAME then old(cache.history)
                               else old(cache.history) + [Addition(old(packet[28..32]), old(packet[22..28]))]
    {
      if size < ARP_FRAME {
        return [];
      }
      var p := packet[..];
      assert packet[28..32] == p[28..32] && packet[22..28] == p[22..28];
      ghost var h' := cache.history + [Addition(p[28..32], p[22..28])];
      assert h'[..|h'| - 1] == cache.history;
      cache.AddEntry(p[28..32], p[22..28]);
      if p[20..22] == Big(1) && p[38..42] == host.ip {
        answer := FillArp(p[22..28], host, 2, p[22..28], p[28..32]);
      } else {
        answer := [];
      }
    }
  }

  /** The next field of a frame that fills the first k bytes of a buffer so far. */
  method Field(buffer: array<byte>, k: nat, v: Bytes) returns (next: nat)
    requires k + |v| <= buffer.Length
    modifies buffer
    ensures next == k + |v| && buffer[..next] == old(buffer[..k]) + v
    ensures forall i :: next <= i < buffer.Length ==> buffer[i] == old(buffer[i])
  {
    Store(buffer, k, v);
    next := k + |v|;
  }

  /** The frame header and the fixed ARP fields: bytes 0 to 21. */
  method FillArpHead(buffer: array<byte>, frameTo: Mac, from: Mac, opcode: u16)
    requires buffer.Length == 60
    modifies buffer
    ensures buffer[..22] == frameTo + from + (Big(0x0806) + Big(1) + Big(0x0800) + [6, 4]) + Big(opcode)
    ensures forall i :: 22 <= i < 60 ==> buffer[i] == old(buffer[i])
  {
    var k := Field(buffer, 0, frameTo);
    k := Field(buffer, k, from);
    k := Field(buffer, k, Big(0x0806) + Big(1) + Big(0x0800) + [6, 4]);
    k := Field(buffer, k, Big(opcode));
  }

  /** An ARP frame written field by field into a zeroed 60-byte buffer. */
  method FillArp(frameTo: Mac, from: Host, opcode: u16, targetMac: Mac, targetIp: Ip) returns (p: Bytes)
    ensures p == ArpFrame(frameTo, from, opcode, targetMac, targetIp)
  {
    var buffer := new byte[60](_ => 0);
    FillArpHead(buffer, frameTo, from.mac, opcode);
    ghost var head := buffer[..22];
    var k := Field(buffer, 22, from.mac);
    k := Field(buffer, k, from.ip);
    k := Field(buffer, k, targetMac);
    k := Field(buffer, k, targetIp);
    assert buffer[..42] == head + from.mac + from.ip + targetMac + targetIp;
    assert forall i :: 42 <= i < 60 ==> buffer[i] == 0;
    p := buffer[..];
    assert p == buffer[..42] + seq(18, _ => 0);
  }
}
