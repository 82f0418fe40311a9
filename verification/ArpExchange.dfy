/** ARP on the wire: requests, replies, and what an exchange leaves in the two caches. */
module ArpExchange {
  import opened Machine
  import opened Checksum
  import opened Arp
  import opened Icmp

  const ARP_FRAME := 42
  const ARP_PADDED := 60

  /** A padded frame: addresses, then the ARP fields of the given operation. */
  function ArpFrame(frameTo: Mac, from: Host, opcode: u16, targetMac: Mac, targetIp: Ip): (p: Bytes)
    ensures |p| == ARP_PADDED
  {
    frameTo + from.mac + Big(0x0806) + Big(1) + Big(0x0800) + [6, 4] + Big(opcode)
    + from.mac + from.ip + targetMac + targetIp + seq(18, _ => 0)
  }

  lemma ArpFrameFields(frameTo: Mac, from: Host, opcode: u16, targetMac: Mac, targetIp: Ip, p: Bytes)
    requires p == ArpFrame(frameTo, from, opcode, targetMac, targetIp)
    ensures p[0..6] == frameTo && p[6..12] == from.mac && p[20..22] == Big(opcode)
    ensures p[22..28] == from.mac && p[28..32] == from.ip && p[32..38] == targetMac && p[38..42] == targetIp
  {
  }

  /** arp_send_request: broadcast, asking for the owner of an address. */
  function ArpRequest(h: Host, target: Ip): (p: Bytes)
    ensures |p| == ARP_PADDED
  {
    ArpFrame([255, 255, 255, 255, 255, 255], h, 1, [0, 0, 0, 0, 0, 0], target)
  }

  /** The answer to the sender of p. */
  function ArpReply(h: Host, p: Bytes): (r: Bytes)
    requires |p| >= ARP_FRAME
    ensures |r| == ARP_PADDED
  {
    ArpFrame(p[22..28], h, 2, p[22..28], p[28..32])
  }

  datatype ArpEffect = ArpEffect(cache: Cache, answer: Bytes)

  /** handle_arp_packet: learn the sender, answer requests for the own address; no answer is []. */
  function ReceiveArp(h: Host, c: Cache, p: Bytes, size: nat): ArpEffect
    requires size <= |p|
  {
    if size < ARP_FRAME then ArpEffect(c, [])
    else
      ArpEffect(Add(c, p[28..32], p[22..28]),
                if p[20..22] == Big(1) && p[38..42] == h.ip then ArpReply(h, p) else [])
  }

  /** An address just added resolves, exactly when it was known or a slot was free. */
  lemma ResolveAfterAdd(c: Cache, ip: Ip, mac: Mac)
    ensures Resolve(Add(c, ip, mac), ip)
         == if FindIp(c, ip, 0) < ARP_CACHE_SIZE || FindFree(c, 0) < ARP_CACHE_SIZE then Known(mac) else Unknown
  {
    var c' := Add(c, ip, mac);
    var f, g := FindIp(c, ip, 0), FindFree(c, 0);
    var f' := FindIp(c', ip, 0);
    if f < ARP_CACHE_SIZE {
      assert c'[f].active && c'[f].ip == ip;
      assert f' == f;
    } else if g < ARP_CACHE_SIZE {
      assert c'[g].active && c'[g].ip == ip;
      assert f' == g;
    }
  }

  lemma RequestIsAnswered(asker: Host, owner: Host, c: Cache, p: Bytes)
    requires p == ArpRequest(asker, owner.ip)
    ensures ReceiveArp(owner, c, p, ARP_PADDED) == ArpEffect(Add(c, asker.ip, asker.mac), ArpReply(owner, p))
    ensures p[22..28] == asker.mac && p[28..32] == asker.ip
  {
    ArpFrameFields([255, 255, 255, 255, 255, 255], asker, 1, [0, 0, 0, 0, 0, 0], owner.ip, p);
  }

  lemma ReplyIsLearned(asker: Host, owner: Host, c: Cache, p: Bytes, r: Bytes)
    requires |p| >= ARP_FRAME && r == ArpReply(owner, p)
    ensures ReceiveArp(asker, c, r, ARP_PADDED) == ArpEffect(Add(c, owner.ip, owner.mac), [])
  {
    ArpFrameFields(p[22..28], owner, 2, p[22..28], p[28..32], r);
    assert Big(2) != Big(1) by {
      assert Big(2)[1] == 2 && Big(1)[1] == 1;
    }
  }

  /** Request and reply: afterwards the asker resolves the owner, unless its cache is full of others. */
  lemma ArpResolves(asker: Host, owner: Host, askerCache: Cache, ownerCache: Cache)
    ensures var p := ArpRequest(asker, owner.ip);
      var atOwner := ReceiveArp(owner, ownerCache, p, ARP_PADDED);
      && |atOwner.answer| == ARP_PADDED
      && atOwner.answer[0..6] == asker.mac
      && var atAsker := ReceiveArp(asker, askerCache, atOwner.answer, ARP_PADDED);
         Resolve(atAsker.cache, owner.ip)
           == if FindIp(askerCache, owner.ip, 0) < ARP_CACHE_SIZE || FindFree(askerCache, 0) < ARP_CACHE_SIZE
              then Known(owner.mac) else Unknown
  {
    var p := ArpRequest(asker, owner.ip);
    RequestIsAnswered(asker, owner, ownerCache, p);
    var r := ArpReply(owner, p);
    ArpFrameFields(p[22..28], owner, 2, p[22..28], p[28..32], r);
    ReplyIsLearned(asker, owner, askerCache, p, r);
    ResolveAfterAdd(askerCache, owner.ip, owner.mac);
  }
}
