/** The Internet checksum as the network driver computes it, and RFC 1071's view of it. */
module Checksum {
  import opened Machine

  type Bytes = seq<byte>

  // ----- byte order

  /** ntohs and htons. */
  function Swap16(n: u16): (r: u16) {
    n % 0x100 * 0x100 + n / 0x100
  }

  /** ntohl and htonl: the halves trade places, each swapped. */
  function Swap32(n: u32): (r: u32) {
    Swap16(n % 0x1_0000) * 0x1_0000 + Swap16(n / 0x1_0000)
  }

  lemma SwapTwice(n: u16)
    ensures Swap16(Swap16(n)) == n
  {
    var low, high := n % 0x100, n / 0x100;
    assert Swap16(n) / 0x100 == low && Swap16(n) % 0x100 == high;
  }

  lemma SwapTwice32(m: u32)
    ensures Swap32(Swap32(m)) == m
  {
    var low, high := m % 0x1_0000, m / 0x1_0000;
    SwapHalves(low, high, Swap16(low), Swap16(high));
  }

  lemma SwapHalves(low: u16, high: u16, low': u16, high': u16)
    requires low' == Swap16(low) && high' == Swap16(high)
    ensures Swap32(low' * 0x1_0000 + high') == high * 0x1_0000 + low
  {
    assert (low' * 0x1_0000 + high') % 0x1_0000 == high' && (low' * 0x1_0000 + high') / 0x1_0000 == low';
    SwapTwice(low);
    SwapTwice(high);
  }

  /** The two bytes of a 16-bit value as this machine stores them: low byte first. */
  function Little(n: u16): (r: Bytes)
    ensures |r| == 2
  {
    [n % 0x100, n / 0x100]
  }

  /** The two bytes of a 16-bit value in network order: high byte first. */
  function Big(n: u16): (r: Bytes)
    ensures |r| == 2
  {
    [n / 0x100, n % 0x100]
  }

  /** Storing htons(n) puts the bytes of n in network order. */
  lemma HtonsIsNetworkOrder(n: u16)
    ensures Little(Swap16(n)) == Big(n)
  {
  }

  /** The same for 32-bit values. */
  function Little32(n: u32): (r: Bytes)
    ensures |r| == 4
  {
    Little(n % 0x1_0000) + Little(n / 0x1_0000)
  }

  function Big32(n: u32): (r: Bytes)
    ensures |r| == 4
  {
    Big(n / 0x1_0000) + Big(n % 0x1_0000)
  }

  /** Storing htonl(n) puts the bytes of n in network order. */
  lemma HtonlIsNetworkOrder(n: u32)
    ensures Little32(Swap32(n)) == Big32(n)
  {
    var low, high := Swap16(n % 0x1_0000), Swap16(n / 0x1_0000);
    assert Swap32(n) % 0x1_0000 == high && Swap32(n) / 0x1_0000 == low;
    HtonsIsNetworkOrder(n % 0x1_0000);
    HtonsIsNetworkOrder(n / 0x1_0000);
  }

  // ----- sums

  /** Word i as the driver loads it. */
  function Word(b: Bytes, i: nat): (w: u16)
    requires 2 * i + 1 < |b|
  {
    b[2 * i] as int + 0x100 * (b[2 * i + 1] as int)
  }

  function WordSum(b: Bytes, n: nat): (r: nat)
    requires 2 * n <= |b|
    ensures r <= 0xFFFF * n
  {
    if n == 0 then 0 else WordSum(b, n - 1) + Word(b, n - 1)
  }

  /** The sum of the loaded words, an odd last byte added as it is. */
  function RawSum(b: Bytes): nat {
    WordSum(b, |b| / 2) + (if |b| % 2 == 1 then b[|b| - 1] else 0)
  }

  /** Folding the carries back until the sum fits 16 bits. */
  function Fold(sum: nat): (r: nat)
    ensures r < 0x1_0000
  {
    if sum < 0x1_0000 then sum else Fold(sum % 0x1_0000 + sum / 0x1_0000)
  }

  function IpChecksum(b: Bytes): (c: u16) {
    0xFFFF - Fold(RawSum(b))
  }

  /** The one's complement value of a sum: its residue modulo 65535, with 65535 for nonzero multiples. */
  function OnesComplement(sum: nat): (r: nat)
    ensures r <= 0xFFFF
    ensures r == 0 <==> sum == 0
  {
    if sum == 0 then 0 else (sum - 1) % 0xFFFF + 1
  }

  lemma SameResidue(a: nat, q: nat)
    requires a > 0
    ensures OnesComplement(a + 0xFFFF * q) == OnesComplement(a)
  {
    assert (a - 1 + 0xFFFF * q) % 0xFFFF == (a - 1) % 0xFFFF;
  }

  lemma {:induction false} FoldIsOnesComplement(sum: nat)
    ensures Fold(sum) == OnesComplement(sum)
    decreases sum
  {
    if sum >= 0x1_0000 {
      var next := sum % 0x1_0000 + sum / 0x1_0000;
      FoldIsOnesComplement(next);
      SameResidue(next, sum / 0x1_0000);
    }
  }

  // ----- storing a checksum makes the whole buffer sum to zero

  function Put(b: Bytes, k: nat, v: Bytes): (r: Bytes)
    requires k + |v| <= |b|
    ensures |r| == |b|
    ensures forall i :: 0 <= i < |b| ==> r[i] == if k <= i < k + |v| then v[i - k] else b[i]
  {
    seq(|b|, i requires 0 <= i < |b| => if k <= i < k + |v| then v[i - k] else b[i])
  }

  lemma {:induction false} WordSumPut(b: Bytes, n: nat, k: nat, v: u16)
    requires 2 * n <= |b| && 2 * k + 2 <= |b|
    ensures WordSum(Put(b, 2 * k, Little(v)), n)
         == WordSum(b, n) + (if k < n then v - Word(b, k) else 0)
  {
    if n > 0 {
      WordSumPut(b, n - 1, k, v);
    }
  }

  lemma RawSumPut(b: Bytes, k: nat, v: u16)
    requires 2 * k + 2 <= |b|
    ensures RawSum(Put(b, 2 * k, Little(v))) == RawSum(b) + v - Word(b, k)
  {
    WordSumPut(b, |b| / 2, k, v);
  }

  /** Storing the checksum into a zeroed aligned field makes the buffer check as 0. */
  lemma StoredChecksumVerifies(b: Bytes, k: nat)
    requires 2 * k + 2 <= |b| && Word(b, k) == 0
    ensures IpChecksum(Put(b, 2 * k, Little(IpChecksum(b)))) == 0
  {
    var s := RawSum(b);
    var c := IpChecksum(b);
    RawSumPut(b, k, c);
    FoldIsOnesComplement(s);
    FoldIsOnesComplement(s + c);
    if s > 0 {
      assert s + c == 0xFFFF + 0xFFFF * ((s - 1) / 0xFFFF);
      SameResidue(0xFFFF, (s - 1) / 0xFFFF);
    }
  }

  // ----- byte order independence, section 2(B) of RFC 1071

  function BigWordSum(b: Bytes, n: nat): nat
    requires 2 * n <= |b|
  {
    if n == 0 then 0 else BigWordSum(b, n - 1) + 0x100 * (b[2 * n - 2] as int) + b[2 * n - 1]
  }

  /** The sum over the wire's big-endian words, an odd last byte padded with a zero byte. */
  function WireSum(b: Bytes): nat {
    BigWordSum(b, |b| / 2) + (if |b| % 2 == 1 then 0x100 * (b[|b| - 1] as int) else 0)
  }

  function HighSum(b: Bytes, n: nat): nat
    requires 2 * n <= |b|
  {
    if n == 0 then 0 else HighSum(b, n - 1) + b[2 * n - 1]
  }

  lemma {:induction false} SumsAgree(b: Bytes, n: nat)
    requires 2 * n <= |b|
    ensures 0x100 * WordSum(b, n) == BigWordSum(b, n) + 0xFFFF * HighSum(b, n)
  {
    if n > 0 {
      SumsAgree(b, n - 1);
    }
  }

  lemma SwappedResidue(s: nat, w: nat, t: nat)
    requires 0x100 * s == w + 0xFFFF * t && (s == 0 <==> w == 0)
    ensures OnesComplement(w) == Swap16(OnesComplement(s))
  {
    if s > 0 {
      var x := OnesComplement(s);
      var q := (s - 1) / 0xFFFF;
      assert s == 0xFFFF * q + x;
      assert Swap16(x) == 0x100 * x - 0xFFFF * (x / 0x100);
      var y := Swap16(x);
      assert w == y + 0xFFFF * (0x100 * q + x / 0x100 - t);
      ResidueOf(w, y, 0x100 * q + x / 0x100 - t);
    }
  }

  lemma ResidueOf(w: nat, y: nat, q: int)
    requires w > 0 && 1 <= y <= 0xFFFF && w == y + 0xFFFF * q
    ensures OnesComplement(w) == y
  {
    assert q >= 0;
    SameResidue(y, q);
  }

  lemma {:induction false} ZeroSums(b: Bytes, n: nat)
    requires 2 * n <= |b|
    ensures WordSum(b, n) == 0 <==> BigWordSum(b, n) == 0
  {
    if n > 0 {
      ZeroSums(b, n - 1);
    }
  }

  lemma WireRelation(b: Bytes)
    ensures 0x100 * RawSum(b) == WireSum(b) + 0xFFFF * HighSum(b, |b| / 2)
    ensures RawSum(b) == 0 <==> WireSum(b) == 0
  {
    SumsAgree(b, |b| / 2);
    ZeroSums(b, |b| / 2);
  }

  lemma SwapComplement(x: u16)
    ensures Swap16(0xFFFF - x) == 0xFFFF - Swap16(x)
  {
  }

  /** The checksum this machine computes is the byte swap of the one the wire format defines. */
  lemma ByteOrderIndependence(b: Bytes)
    ensures Swap16(IpChecksum(b)) == 0xFFFF - OnesComplement(WireSum(b))
  {
    WireRelation(b);
    SwappedResidue(RawSum(b), WireSum(b), HighSum(b, |b| / 2));
    FoldIsOnesComplement(RawSum(b));
    SwapComplement(Fold(RawSum(b)));
  }

  // ----- the code

  /** The first two parts of ip_checksum: whole words, then an odd last byte. */
  method AddWords(buffer: array<byte>, start: nat, length: nat) returns (sum: u32)
    requires start + length <= buffer.Length && length <= 0x1_0000
    ensures sum == RawSum(buffer[start..start + length])
  {
    ghost var b := buffer[start..start + length];
    sum := 0;
    for i := 0 to length / 2
      invariant sum == WordSum(b, i)
    {
      assert b[2 * i] == buffer[start + 2 * i] && b[2 * i + 1] == buffer[start + 2 * i + 1];
      sum := sum + (buffer[start + 2 * i] as int + 0x100 * (buffer[start + 2 * i + 1] as int));
    }
    if length % 2 == 1 {
      sum := sum + buffer[start + length - 1];
    }
  }

  /** ip_checksum: sum, fold, complement; the 32-bit sum does not wrap up to 64 KiB. */
  method ComputeChecksum(buffer: array<byte>, start: nat, length: nat) returns (c: u16)
    requires start + length <= buffer.Length && length <= 0x1_0000
    ensures c == IpChecksum(buffer[start..start + length])
  {
    ghost var b := buffer[start..start + length];
    var sum := AddWords(buffer, start, length);
    while sum / 0x1_0000 != 0
      invariant Fold(sum) == Fold(RawSum(b))
      decreases sum
    {
      sum := sum % 0x1_0000 + sum / 0x1_0000;
    }
    c := 0xFFFF - sum;
  }
}
