/** The ARP cache: sixteen slots, filled first come, refreshed in place, never evicted. */
module Arp {
  import opened Machine

  type Ip = s: seq<byte> | |s| == 4 witness [0, 0, 0, 0]
  type Mac = s: seq<byte> | |s| == 6 witness [0, 0, 0, 0, 0, 0]

  const ARP_CACHE_SIZE := 16

  datatype Entry = Entry(ip: Ip, mac: Mac, active: bool)
  datatype Lookup = Unknown | Known(mac: Mac)

  type Cache = c: seq<Entry> | |c| == ARP_CACHE_SIZE
    witness seq(ARP_CACHE_SIZE, _ => Entry([0, 0, 0, 0], [0, 0, 0, 0, 0, 0], false))

  function EmptyCache(): Cache {
    seq(ARP_CACHE_SIZE, _ => Entry([0, 0, 0, 0], [0, 0, 0, 0, 0, 0], false))
  }

  // ----- the code's two operations

  function FindIp(c: Cache, ip: Ip, i: nat): (r: nat)
    requires i <= ARP_CACHE_SIZE
    ensures i <= r <= ARP_CACHE_SIZE
    ensures forall k :: i <= k < r ==> !(c[k].active && c[k].ip == ip)
    ensures r < ARP_CACHE_SIZE ==> c[r].active && c[r].ip == ip
    decreases |c| - i
  {
    if i == ARP_CACHE_SIZE || (c[i].active && c[i].ip == ip) then i else FindIp(c, ip, i + 1)
  }

  function FindFree(c: Cache, i: nat): (r: nat)
    requires i <= ARP_CACHE_SIZE
    ensures i <= r <= ARP_CACHE_SIZE
    ensures forall k :: i <= k < r ==> c[k].active
    ensures r < ARP_CACHE_SIZE ==> !c[r].active
    decreases |c| - i
  {
    if i == ARP_CACHE_SIZE || !c[i].active then i else FindFree(c, i + 1)
  }

  function Add(c: Cache, ip: Ip, mac: Mac): Cache {
    var f := FindIp(c, ip, 0);
    if f < ARP_CACHE_SIZE then c[f := c[f].(mac := mac)]
    else
      var g := FindFree(c, 0);
      if g < ARP_CACHE_SIZE then c[g := Entry(ip, mac, true)] else c
  }

  function Resolve(c: Cache, ip: Ip): Lookup {
    var f := FindIp(c, ip, 0);
    if f < ARP_CACHE_SIZE then Known(c[f].mac) else Unknown
  }

  // ----- what a history of additions means

  datatype Addition = Addition(ip: Ip, mac: Mac)

  /** The cache after a history of additions to an empty one. */
  function Replay(h: seq<Addition>): Cache {
    if h == [] then EmptyCache()
    else Add(Replay(h[..|h| - 1]), h[|h| - 1].ip, h[|h| - 1].mac)
  }

  /** The distinct addresses of a history, in order of first appearance. */
  function Addresses(h: seq<Addition>): (r: seq<Ip>)
    ensures forall a :: a in h ==> a.ip in r
    ensures forall i, j :: 0 <= i < j < |r| ==> r[i] != r[j]
  {
    if h == [] then []
    else
      var before := Addresses(h[..|h| - 1]);
      assert forall a :: a in h ==> a in h[..|h| - 1] || a == h[|h| - 1];
      if h[|h| - 1].ip in before then before else before + [h[|h| - 1].ip]
  }

  /** The most recently added hardware address. */
  function LatestMac(h: seq<Addition>, ip: Ip): Lookup {
    if h == [] then Unknown
    else if h[|h| - 1].ip == ip then Known(h[|h| - 1].mac)
    else LatestMac(h[..|h| - 1], ip)
  }

  /** The address is among the first sixteen distinct ones. */
  ghost predicate Cached(h: seq<Addition>, ip: Ip) {
    exists i :: 0 <= i < |Addresses(h)| && i < ARP_CACHE_SIZE && Addresses(h)[i] == ip
  }

  /** Slot i holds the i-th distinct address with its latest hardware address; the rest are free. */
  ghost predicate Mirrors(c: Cache, h: seq<Addition>) {
    forall i :: 0 <= i < ARP_CACHE_SIZE ==>
      (c[i].active <==> i < |Addresses(h)|)
      && (c[i].active ==> c[i].ip == Addresses(h)[i] && Known(c[i].mac) == LatestMac(h, c[i].ip))
  }

  lemma AddMirrors(c: Cache, h: seq<Addition>, a: Addition)
    requires Mirrors(c, h)
    ensures Mirrors(Add(c, a.ip, a.mac), h + [a])
  {
    if FindIp(c, a.ip, 0) < ARP_CACHE_SIZE {
      RefreshMirrors(c, h, a, FindIp(c, a.ip, 0));
    } else {
      InsertMirrors(c, h, a);
    }
  }

  lemma RefreshMirrors(c: Cache, h: seq<Addition>, a: Addition, f: nat)
    requires Mirrors(c, h) && f == FindIp(c, a.ip, 0) && f < ARP_CACHE_SIZE
    ensures Mirrors(c[f := c[f].(mac := a.mac)], h + [a])
  {
    var h' := h + [a];
    assert h'[..|h'| - 1] == h;
    assert c[f].active && c[f].ip == Addresses(h)[f];
    assert Addresses(h') == Addresses(h);
    var c' := c[f := c[f].(mac := a.mac)];
    forall i | 0 <= i < ARP_CACHE_SIZE
      ensures (c'[i].active <==> i < |Addresses(h')|)
        && (c'[i].active ==> c'[i].ip == Addresses(h')[i] && Known(c'[i].mac) == LatestMac(h', c'[i].ip))
    {
      assert c[i].active <==> i < |Addresses(h)|;
    }
  }

  lemma InsertMirrors(c: Cache, h: seq<Addition>, a: Addition)
    requires Mirrors(c, h) && FindIp(c, a.ip, 0) == ARP_CACHE_SIZE
    ensures Mirrors(Add(c, a.ip, a.mac), h + [a])
  {
    var h' := h + [a];
    assert h'[..|h'| - 1] == h;
    NotCachedMeans(c, h, a.ip);
    var n := |Addresses(h)|;
    var c' := Add(c, a.ip, a.mac);
    assert n < ARP_CACHE_SIZE ==> Addresses(h') == Addresses(h) + [a.ip] && c' == c[n := Entry(a.ip, a.mac, true)];
    assert n >= ARP_CACHE_SIZE ==> c' == c && Addresses(h) <= Addresses(h');
    forall i | 0 <= i < ARP_CACHE_SIZE
      ensures (c'[i].active <==> i < |Addresses(h')|)
        && (c'[i].active ==> c'[i].ip == Addresses(h')[i] && Known(c'[i].mac) == LatestMac(h', c'[i].ip))
    {
      assert c[i].active <==> i < n;
    }
  }

  lemma NotCachedMeans(c: Cache, h: seq<Addition>, ip: Ip)
    requires Mirrors(c, h) && FindIp(c, ip, 0) == ARP_CACHE_SIZE
    ensures ip in Addresses(h) ==> |Addresses(h)| > ARP_CACHE_SIZE
    ensures forall i :: 0 <= i < ARP_CACHE_SIZE && i < |Addresses(h)| ==> Addresses(h)[i] != ip
    ensures FindFree(c, 0) == if |Addresses(h)| < ARP_CACHE_SIZE then |Addresses(h)| else ARP_CACHE_SIZE
  {
    forall i | 0 <= i < ARP_CACHE_SIZE && i < |Addresses(h)|
      ensures Addresses(h)[i] != ip
    {
      assert c[i].active && c[i].ip == Addresses(h)[i];
    }
    var g, n := FindFree(c, 0), |Addresses(h)|;
    if n < ARP_CACHE_SIZE {
      assert !c[n].active;
      assert g <= n && !c[g].active;
    }
  }

  lemma {:induction false} ReplayMirrors(h: seq<Addition>)
    ensures Mirrors(Replay(h), h)
  {
    if h != [] {
      var init := h[..|h| - 1];
      ReplayMirrors(init);
      AddMirrors(Replay(init), init, h[|h| - 1]);
      assert h == init + [h[|h| - 1]];
    }
  }

  /** A lookup answers with the latest MAC of each of the first sixteen addresses, and with nothing else. */
  lemma ResolveIsLatest(h: seq<Addition>, ip: Ip)
    ensures Resolve(Replay(h), ip) == if Cached(h, ip) then LatestMac(h, ip) else Unknown
  {
    var c := Replay(h);
    ReplayMirrors(h);
    var f := FindIp(c, ip, 0);
    if Cached(h, ip) {
      var i :| 0 <= i < |Addresses(h)| && i < ARP_CACHE_SIZE && Addresses(h)[i] == ip;
      assert c[i].active && c[i].ip == ip;
      assert f <= i;
    }
    if f < ARP_CACHE_SIZE {
      assert c[f].active && Addresses(h)[f] == ip;
    }
  }

  /** Active entries have distinct addresses. */
  lemma ActiveDistinct(h: seq<Addition>, i: nat, j: nat)
    requires i < j < ARP_CACHE_SIZE && Replay(h)[i].active && Replay(h)[j].active
    ensures Replay(h)[i].ip != Replay(h)[j].ip
  {
    ReplayMirrors(h);
    assert Replay(h)[i].ip == Addresses(h)[i] && Replay(h)[j].ip == Addresses(h)[j];
  }

  // ----- the code

  class ArpCache {
    const entries: array<Entry>
    ghost var history: seq<Addition>

    ghost predicate Valid()
      reads this, entries
    {
      entries.Length == ARP_CACHE_SIZE && entries[..] == Replay(history)
    }

    constructor ()
      ensures Valid() && history == [] && fresh(entries)
    {
      entries := new Entry[16](_ => Entry([0, 0, 0, 0], [0, 0, 0, 0, 0, 0], false));
      history := [];
      new;
      assert entries[..] == EmptyCache();
    }

    method AddEntry(ip: Ip, mac: Mac)
      requires Valid()
      modifies this, entries
      ensures Valid() && history == old(history) + [Addition(ip, mac)]
    {
      ghost var c := entries[..];
      ghost var h' := history + [Addition(ip, mac)];
      assert h'[..|h'| - 1] == history;
      history := h';
      for i := 0 to 16
        invariant entries[..] == c && FindIp(c, ip, 0) == FindIp(c, ip, i)
      {
        if entries[i].active && entries[i].ip == ip {
          entries[i] := entries[i].(mac := mac);
          assert entries[..] == Add(c, ip, mac);
          return;
        }
      }
      for i := 0 to 16
        invariant entries[..] == c && FindFree(c, 0) == FindFree(c, i)
      {
        if !entries[i].active {
          entries[i] := Entry(ip, mac, true);
          assert entries[..] == Add(c, ip, mac);
          return;
        }
      }
    }

    method Lookup(ip: Ip) returns (r: Lookup)
      requires Valid()
      ensures r == if Cached(history, ip) then LatestMac(history, ip) else Unknown
    {
      ghost var c := entries[..];
      ResolveIsLatest(history, ip);
      for i := 0 to 16
        invariant FindIp(c, ip, 0) == FindIp(c, ip, i)
      {
        if entries[i].active && entries[i].ip == ip {
          return Known(entries[i].mac);
        }
      }
      return Unknown;
    }
  }
}
