/** Bitmaps: as sequences of bits, and as the packed bytes the kernel stores. */
module Bitmap {

  // ----- sequences of bits

  /** The lowest clear bit in [lo, hi), or hi when every bit there is set. */
  function LowestClear(bits: seq<bool>, lo: nat, hi: nat): (r: nat)
    requires lo <= hi <= |bits|
    ensures lo <= r <= hi
    ensures forall i :: lo <= i < r ==> bits[i]
    ensures r < hi ==> !bits[r]
    decreases hi - lo
  {
    if lo == hi || !bits[lo] then lo else LowestClear(bits, lo + 1, hi)
  }

  lemma LowestClearIsUnique(bits: seq<bool>, lo: nat, hi: nat, r: nat)
    requires lo <= r <= hi <= |bits|
    requires forall i :: lo <= i < r ==> bits[i]
    requires r < hi ==> !bits[r]
    ensures LowestClear(bits, lo, hi) == r
  {
  }

  /** How many of the first n bits are set. */
  function CountSet(bits: seq<bool>, n: nat): (c: nat)
    requires n <= |bits|
    ensures c <= n
  {
    if n == 0 then 0 else CountSet(bits, n - 1) + (if bits[n - 1] then 1 else 0)
  }

  function CountClear(bits: seq<bool>, n: nat): nat
    requires n <= |bits|
  {
    n - CountSet(bits, n)
  }

  lemma {:induction false} CountUpdate(bits: seq<bool>, n: nat, i: nat, v: bool)
    requires n <= |bits| && i < |bits|
    ensures CountSet(bits[i := v], n)
         == CountSet(bits, n) + (if i < n && v then 1 else 0) - (if i < n && bits[i] then 1 else 0)
  {
    if n > 0 {
      CountUpdate(bits, n - 1, i, v);
    }
  }

  lemma {:induction false} CountFull(bits: seq<bool>, n: nat)
    requires n <= |bits|
    ensures CountSet(bits, n) == n <==> forall i :: 0 <= i < n ==> bits[i]
  {
    if n > 0 {
      CountFull(bits, n - 1);
    }
  }

  /** A clear bit exists below n exactly when the count of clear bits is positive. */
  lemma ClearExists(bits: seq<bool>, n: nat)
    requires n <= |bits|
    ensures LowestClear(bits, 0, n) < n <==> CountClear(bits, n) > 0
  {
    CountFull(bits, n);
  }

  // ----- packed bytes

  function Mask(k: nat): bv8
    requires k < 8
  {
    if k == 0 then 0x01 else if k == 1 then 0x02 else if k == 2 then 0x04 else if k == 3 then 0x08
    else if k == 4 then 0x10 else if k == 5 then 0x20 else if k == 6 then 0x40 else 0x80
  }

  predicate TestBit(b: bv8, k: nat)
    requires k < 8
  {
    b & Mask(k) != 0
  }

  lemma TestAfterSet(b: bv8, k: nat, j: nat)
    requires k < 8 && j < 8
    ensures TestBit(b | Mask(k), j) <==> j == k || TestBit(b, j)
  {
  }

  lemma TestAfterClear(b: bv8, k: nat, j: nat)
    requires k < 8 && j < 8
    ensures TestBit(b & !Mask(k), j) <==> j != k && TestBit(b, j)
  {
  }

  lemma ByteExtensionality(a: bv8, b: bv8)
    requires forall k :: 0 <= k < 8 ==> TestBit(a, k) == TestBit(b, k)
    ensures a == b
  {
    assert TestBit(a, 0) == TestBit(b, 0) && TestBit(a, 1) == TestBit(b, 1)
        && TestBit(a, 2) == TestBit(b, 2) && TestBit(a, 3) == TestBit(b, 3);
    assert TestBit(a, 4) == TestBit(b, 4) && TestBit(a, 5) == TestBit(b, 5)
        && TestBit(a, 6) == TestBit(b, 6) && TestBit(a, 7) == TestBit(b, 7);
  }

  lemma FullByte(k: nat)
    requires k < 8
    ensures TestBit(0xFF, k) && !TestBit(0x00, k)
  {
  }

  /** The bits of a packed bitmap: bit i is bit i % 8 of byte i / 8. */
  function Unpack(bytes: seq<bv8>): (bits: seq<bool>)
    ensures |bits| == 8 * |bytes|
  {
    seq(8 * |bytes|, i requires 0 <= i < 8 * |bytes| => TestBit(bytes[i / 8], i % 8))
  }

  function SetBit(bytes: seq<bv8>, i: nat): seq<bv8>
    requires i < 8 * |bytes|
  {
    bytes[i / 8 := bytes[i / 8] | Mask(i % 8)]
  }

  function ClearBit(bytes: seq<bv8>, i: nat): seq<bv8>
    requires i < 8 * |bytes|
  {
    bytes[i / 8 := bytes[i / 8] & !Mask(i % 8)]
  }

  lemma UnpackSet(bytes: seq<bv8>, i: nat)
    requires i < 8 * |bytes|
    ensures Unpack(SetBit(bytes, i)) == Unpack(bytes)[i := true]
  {
    forall j | 0 <= j < 8 * |bytes|
      ensures Unpack(SetBit(bytes, i))[j] == Unpack(bytes)[i := true][j]
    {
      TestAfterSet(bytes[i / 8], i % 8, j % 8);
    }
  }

  lemma UnpackClear(bytes: seq<bv8>, i: nat)
    requires i < 8 * |bytes|
    ensures Unpack(ClearBit(bytes, i)) == Unpack(bytes)[i := false]
  {
    forall j | 0 <= j < 8 * |bytes|
      ensures Unpack(ClearBit(bytes, i))[j] == Unpack(bytes)[i := false][j]
    {
      TestAfterClear(bytes[i / 8], i % 8, j % 8);
    }
  }

  /** Packed bitmaps with the same bits are the same bytes. */
  lemma UnpackInjective(a: seq<bv8>, b: seq<bv8>)
    requires Unpack(a) == Unpack(b)
    ensures a == b
  {
    forall i | 0 <= i < |a|
      ensures a[i] == b[i]
    {
      forall k | 0 <= k < 8
        ensures TestBit(a[i], k) == TestBit(b[i], k)
      {
        assert Unpack(a)[8 * i + k] == Unpack(b)[8 * i + k];
      }
      ByteExtensionality(a[i], b[i]);
    }
  }

  /** A byte equal to 0xFF holds eight set bits, so a scan may skip it. */
  lemma SkipFullByte(bytes: seq<bv8>, i: nat)
    requires i < |bytes| && bytes[i] == 0xFF
    ensures forall j :: 8 * i <= j < 8 * i + 8 ==> Unpack(bytes)[j]
  {
    forall j | 8 * i <= j < 8 * i + 8
      ensures Unpack(bytes)[j]
    {
      FullByte(j % 8);
    }
  }
}
