/** Bytes, 16-bit addresses and the memory of the heating controller. */
module Bytes {

  datatype Option<+T> = None | Some(value: T)

  function Min(a: int, b: int): int {
    if a < b then a else b
  }

  type byte = x: int | 0 <= x < 0x100
  type Addr = x: int | 0 <= x < 0x1_0000

  /** Go's `[2]byte` address, most significant byte first. */
  datatype AddrBytes = AddrBytes(hi: byte, lo: byte)

  function Bytes2Addr(a: AddrBytes): Addr {
    a.hi * 0x100 + a.lo
  }

  function Addr2Bytes(a: Addr): AddrBytes {
    AddrBytes(a / 0x100, a % 0x100)
  }

  lemma AddressRoundTrip(a: Addr, b: AddrBytes)
    ensures Bytes2Addr(Addr2Bytes(a)) == a
    ensures Addr2Bytes(Bytes2Addr(b)) == b
  {
    assert (b.hi * 0x100 + b.lo) / 0x100 == b.hi;
  }

  /** `uint16` addition. */
  function Plus(a: Addr, k: nat): Addr {
    (a + k) % 0x1_0000
  }

  lemma PlusZero(a: Addr)
    ensures Plus(a, 0) == a
  {
  }

  lemma PlusPlus(a: Addr, j: nat, k: nat)
    ensures Plus(Plus(a, j), k) == Plus(a, j + k)
  {
  }

  /** How far address `x` lies behind address `a`, going upwards and wrapping at the end. */
  function Offset(a: Addr, x: Addr): nat {
    (x - a) % 0x1_0000
  }

  lemma OffsetPlus(a: Addr, k: nat)
    requires k < 0x1_0000
    ensures Offset(a, Plus(a, k)) == k
  {
  }

  lemma PlusOffset(a: Addr, x: Addr)
    ensures Plus(a, Offset(a, x)) == x
  {
  }

  /** The whole 16-bit address space of the device. */
  type Memory = m: seq<byte> | |m| == 0x1_0000 witness seq(0x1_0000, i => 0)

  function Slice(m: Memory, a: Addr, n: nat): (s: seq<byte>)
    ensures |s| == n
  {
    seq(n, i requires 0 <= i < n => m[Plus(a, i)])
  }

  function Store(m: Memory, a: Addr, bs: seq<byte>): Memory {
    seq(0x1_0000, x requires 0 <= x < 0x1_0000 =>
      if Offset(a, x) < |bs| then bs[Offset(a, x)] else m[x])
  }

  /** The addresses `a, a+1, .., a+n-1` share no address with `b, .., b+k-1`. */
  predicate Apart(a: Addr, n: nat, b: Addr, k: nat) {
    forall i, j :: 0 <= i < n && 0 <= j < k ==> Plus(a, i) != Plus(b, j)
  }

  lemma StoreThenSlice(m: Memory, a: Addr, bs: seq<byte>)
    requires |bs| <= 0x1_0000
    ensures Slice(Store(m, a, bs), a, |bs|) == bs
  {
    forall i | 0 <= i < |bs|
      ensures Slice(Store(m, a, bs), a, |bs|)[i] == bs[i]
    {
      OffsetPlus(a, i);
    }
  }

  lemma StoreStore(m: Memory, a: Addr, x: seq<byte>, y: seq<byte>)
    requires |x| + |y| <= 0x1_0000
    ensures Store(Store(m, a, x), Plus(a, |x|), y) == Store(m, a, x + y)
  {
    var l, r := Store(Store(m, a, x), Plus(a, |x|), y), Store(m, a, x + y);
    forall p: Addr
      ensures l[p] == r[p]
    {
      var k := Offset(a, p);
      if k < |x| {
        assert Offset(Plus(a, |x|), p) == k - |x| + 0x1_0000 || |x| == 0x1_0000;
      } else {
        assert Offset(Plus(a, |x|), p) == k - |x|;
      }
    }
  }

  lemma SliceSplit(m: Memory, a: Addr, n: nat, k: nat)
    ensures Slice(m, a, n) + Slice(m, Plus(a, n), k) == Slice(m, a, n + k)
  {
    forall i | 0 <= i < k
      ensures Slice(m, Plus(a, n), k)[i] == Slice(m, a, n + k)[n + i]
    {
      PlusPlus(a, n, i);
    }
  }
}
