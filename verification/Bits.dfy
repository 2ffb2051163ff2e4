/** Bit operations on naturals, and the base-256 digits of a number. */
module Bits {
  import opened Bytes

  predicate Bit(x: nat, k: nat) {
    if k == 0 then x % 2 == 1 else Bit(x / 2, k - 1)
  }

  function Pow2(n: nat): (p: nat)
    ensures p > 0
  {
    if n == 0 then 1 else 2 * Pow2(n - 1)
  }

  function Or(x: nat, y: nat): nat
    decreases x
  {
    if x == 0 then y else 2 * Or(x / 2, y / 2) + if x % 2 == 1 || y % 2 == 1 then 1 else 0
  }

  function And(x: nat, y: nat): nat
    decreases x
  {
    if x == 0 then 0 else 2 * And(x / 2, y / 2) + if x % 2 == 1 && y % 2 == 1 then 1 else 0
  }

  /** Go's `x &^ y`. */
  function AndNot(x: nat, y: nat): nat
    decreases x
  {
    if x == 0 then 0 else 2 * AndNot(x / 2, y / 2) + if x % 2 == 1 && y % 2 == 0 then 1 else 0
  }

  function Shl(x: nat, p: nat): nat {
    if p == 0 then x else 2 * Shl(x, p - 1)
  }

  function Shr(x: nat, p: nat): nat {
    if p == 0 then x else Shr(x / 2, p - 1)
  }

  /** The number formed by the n lowest bits. */
  function Low(x: nat, n: nat): nat {
    if n == 0 then 0 else 2 * Low(x / 2, n - 1) + x % 2
  }

  /** `(1 << n) - 1` */
  function Ones(n: nat): nat {
    if n == 0 then 0 else 2 * Ones(n - 1) + 1
  }

  lemma {:induction false} ZeroBits(k: nat)
    ensures !Bit(0, k)
  {
    if k > 0 {
      ZeroBits(k - 1);
    }
  }

  lemma {:induction false} OrBits(x: nat, y: nat, k: nat)
    ensures Bit(Or(x, y), k) == (Bit(x, k) || Bit(y, k))
    decreases k
  {
    if x == 0 {
      ZeroBits(k);
    } else if k > 0 {
      OrBits(x / 2, y / 2, k - 1);
      assert Or(x, y) / 2 == Or(x / 2, y / 2);
    }
  }

  lemma {:induction false} AndBits(x: nat, y: nat, k: nat)
    ensures Bit(And(x, y), k) == (Bit(x, k) && Bit(y, k))
    decreases k
  {
    if x == 0 {
      ZeroBits(k);
    } else if k > 0 {
      AndBits(x / 2, y / 2, k - 1);
      assert And(x, y) / 2 == And(x / 2, y / 2);
    }
  }

  lemma {:induction false} AndNotBits(x: nat, y: nat, k: nat)
    ensures Bit(AndNot(x, y), k) == (Bit(x, k) && !Bit(y, k))
    decreases k
  {
    if x == 0 {
      ZeroBits(k);
    } else if k > 0 {
      AndNotBits(x / 2, y / 2, k - 1);
      assert AndNot(x, y) / 2 == AndNot(x / 2, y / 2);
    }
  }

  lemma {:induction false} ShlBits(x: nat, p: nat, k: nat)
    ensures Bit(Shl(x, p), k) == (k >= p && Bit(x, k - p))
    decreases p
  {
    if p > 0 {
      assert Shl(x, p) == 2 * Shl(x, p - 1);
      if k > 0 {
        ShlBits(x, p - 1, k - 1);
        assert Shl(x, p) / 2 == Shl(x, p - 1);
      }
    }
  }

  lemma {:induction false} ShrBits(x: nat, p: nat, k: nat)
    ensures Bit(Shr(x, p), k) == Bit(x, k + p)
    decreases p
  {
    if p > 0 {
      ShrBits(x / 2, p - 1, k);
    }
  }

  lemma {:induction false} LowBits(x: nat, n: nat, k: nat)
    ensures Bit(Low(x, n), k) == (k < n && Bit(x, k))
    decreases k
  {
    if n == 0 {
      ZeroBits(k);
    } else if k > 0 {
      LowBits(x / 2, n - 1, k - 1);
      assert Low(x, n) / 2 == Low(x / 2, n - 1);
    }
  }

  lemma {:induction false} OnesBits(n: nat, k: nat)
    ensures Bit(Ones(n), k) == (k < n)
    decreases k
  {
    if n == 0 {
      ZeroBits(k);
    } else if k > 0 {
      OnesBits(n - 1, k - 1);
      assert Ones(n) / 2 == Ones(n - 1);
    }
  }

  lemma {:induction false} LowBound(x: nat, n: nat)
    ensures Low(x, n) < Pow2(n)
    ensures x < Pow2(n) ==> Low(x, n) == x
    decreases n
  {
    if n > 0 {
      LowBound(x / 2, n - 1);
    }
  }

  lemma LowStep(x: nat, n: nat)
    ensures Low(x, n + 1) == 2 * Low(x / 2, n) + x % 2
  {
  }

  lemma DivDef(x: int, n: nat)
    requires n > 0
    ensures x == (x / n) * n + x % n && 0 <= x % n < n
  {
  }

  lemma MulMonotone(a: int, b: int, p: nat)
    requires a <= b
    ensures a * p <= b * p
  {
  }

  lemma ModUnique(q: int, p: nat, r: nat, x: int)
    requires p > 0 && r < p && x == q * p + r
    ensures x % p == r && x / p == q
  {
    var q' := x / p;
    DivDef(x, p);
    if q < q' {
      MulMonotone(q + 1, q', p);
    } else if q' < q {
      MulMonotone(q' + 1, q, p);
    }
  }

  lemma Scale(k: nat, q: int, m: nat)
    ensures q * (k * m) == k * (q * m)
  {
  }

  lemma HalfMod(x: nat, m: nat)
    requires m > 0
    ensures 2 * ((x / 2) % m) + x % 2 == x % (2 * m)
  {
    var h := x / 2;
    var q, r := h / m, h % m;
    DivDef(h, m);
    Scale(2, q, m);
    ModUnique(q, 2 * m, 2 * r + x % 2, x);
  }

  lemma LowDouble(x: nat, n: nat, m: nat)
    requires m in {1, 2, 4, 8, 16, 32, 64, 128}
    requires Low(x / 2, n) == (x / 2) % m
    ensures Low(x, n + 1) == x % (2 * m)
  {
    LowStep(x, n);
    HalfMod(x, m);
  }

  lemma LowByte(x: nat)
    ensures Low(x, 8) == x % 0x100
  {
    LowIs(x, 8, 0x100);
  }

  lemma {:induction false} LowIs(x: nat, n: nat, m: nat)
    requires (n, m) in {(0, 1), (1, 2), (2, 4), (3, 8), (4, 16), (5, 32), (6, 64), (7, 128), (8, 256)}
    ensures Low(x, n) == x % m
    decreases n
  {
    if n > 0 {
      LowIs(x / 2, n - 1, m / 2);
      LowDouble(x, n - 1, m / 2);
    }
  }

  lemma ByteBits(x: nat, k: nat)
    ensures Bit(x % 0x100, k) == (k < 8 && Bit(x, k))
  {
    LowByte(x);
    LowBits(x, 8, k);
  }

  /** Numbers below 2^n with the same n bits are equal. */
  lemma {:induction false} SameBits(x: nat, y: nat, n: nat)
    requires x < Pow2(n) && y < Pow2(n)
    requires forall k: nat :: k < n ==> Bit(x, k) == Bit(y, k)
    ensures x == y
    decreases n
  {
    if n > 0 {
      assert Bit(x, 0) == Bit(y, 0);
      forall k: nat | k < n - 1
        ensures Bit(x / 2, k) == Bit(y / 2, k)
      {
        assert Bit(x, k + 1) == Bit(y, k + 1);
      }
      SameBits(x / 2, y / 2, n - 1);
    }
  }

  // ------------------------------------------------------------ base 256 digits

  function Pow256(n: nat): (p: nat)
    ensures p > 0
  {
    if n == 0 then 1 else 0x100 * Pow256(n - 1)
  }

  /** Least significant byte first. */
  function LeValue(b: seq<byte>): nat {
    if b == [] then 0 else b[0] + 0x100 * LeValue(b[1..])
  }

  function LeBytes(x: nat, n: nat): (b: seq<byte>)
    ensures |b| == n
  {
    if n == 0 then [] else [x % 0x100] + LeBytes(x / 0x100, n - 1)
  }

  lemma {:induction false} LeValueBound(b: seq<byte>)
    ensures LeValue(b) < Pow256(|b|)
  {
    if b != [] {
      LeValueBound(b[1..]);
    }
  }

  lemma {:induction false} LeBytesOfValue(b: seq<byte>)
    ensures LeBytes(LeValue(b), |b|) == b
  {
    if b != [] {
      LeBytesOfValue(b[1..]);
      assert LeValue(b) / 0x100 == LeValue(b[1..]);
    }
  }

  lemma {:induction false} LeValueOfBytes(x: nat, n: nat)
    requires x < Pow256(n)
    ensures LeValue(LeBytes(x, n)) == x
    decreases n
  {
    if n > 0 {
      LeValueOfBytes(x / 0x100, n - 1);
      assert LeBytes(x, n)[1..] == LeBytes(x / 0x100, n - 1);
    }
  }

  /** Only the n lowest digits are written. */
  lemma {:induction false} LeBytesMod(x: nat, n: nat)
    ensures LeBytes(x % Pow256(n), n) == LeBytes(x, n)
    decreases n
  {
    if n > 0 {
      var p := Pow256(n - 1);
      DivMod256(x, p);
      LeBytesMod(x / 0x100, n - 1);
    }
  }

  lemma DivMod256(x: int, p: nat)
    requires p > 0
    ensures x % (0x100 * p) == 0x100 * (x / 0x100 % p) + x % 0x100
    ensures (x % (0x100 * p)) % 0x100 == x % 0x100
    ensures (x % (0x100 * p)) / 0x100 == (x / 0x100) % p
  {
    var h, t := x / 0x100, x % 0x100;
    var q, r := h / p, h % p;
    DivDef(h, p);
    Scale(0x100, q, p);
    ModUnique(q, 0x100 * p, 0x100 * r + t, x);
  }

  lemma {:induction false} LeValueAppend(b: seq<byte>, d: byte)
    ensures LeValue(b + [d]) == LeValue(b) + Pow256(|b|) * d
  {
    if b == [] {
      assert [d][1..] == [];
    } else {
      LeValueAppend(b[1..], d);
      assert (b + [d])[1..] == b[1..] + [d];
    }
  }

  // -------------------------------------------------------- bits as arithmetic

  /** Bit k of a number is the parity of its quotient by 2^k. */
  lemma {:induction false} ShrIs(x: nat, p: nat)
    ensures Shr(x, p) == x / Pow2(p)
    decreases p
  {
    if p > 0 {
      ShrIs(x / 2, p - 1);
      QuotientOfHalf(x, Pow2(p - 1));
    }
  }

  lemma QuotientOfHalf(x: nat, m: nat)
    requires m > 0
    ensures x / 2 / m == x / (2 * m)
  {
    var q, r := x / 2 / m, x / 2 % m;
    DivDef(x / 2, m);
    DivDef(x, 2);
    Scale(2, q, m);
    ModUnique(q, 2 * m, 2 * r + x % 2, x);
  }

  lemma {:induction false} LowMod(x: nat, n: nat)
    ensures Low(x, n) == x % Pow2(n)
    decreases n
  {
    if n > 0 {
      LowMod(x / 2, n - 1);
      HalfMod(x, Pow2(n - 1));
    }
  }

  lemma {:induction false} AndOnes(x: nat, n: nat)
    ensures And(x, Ones(n)) == Low(x, n)
    decreases n
  {
    if n == 0 {
      AndZero(x);
    } else if x == 0 {
      LowZero(n);
    } else {
      AndOnes(x / 2, n - 1);
      assert Ones(n) / 2 == Ones(n - 1) && Ones(n) % 2 == 1;
    }
  }

  lemma {:induction false} AndZero(x: nat)
    ensures And(x, 0) == 0
    decreases x
  {
    if x > 0 {
      AndZero(x / 2);
    }
  }

  lemma {:induction false} LowZero(n: nat)
    ensures Low(0, n) == 0
  {
    if n > 0 {
      LowZero(n - 1);
    }
  }

  /** A remainder modulo a multiple has the same remainder. */
  lemma ModOfMultiple(x: int, k: nat, m: nat)
    requires k > 0 && m > 0
    ensures k * m > 0 && x % (k * m) % m == x % m
  {
    MulMonotone(1, k, m);
    var q, r := x / (k * m), x % (k * m);
    DivDef(x, k * m);
    DivDef(r, m);
    Scale(k, q, m);
    Collect(q, k, r / m, m);
    ModUnique(q * k + r / m, m, r % m, x);
  }

  lemma Collect(q: int, k: nat, t: int, m: nat)
    ensures (q * k + t) * m == q * (k * m) + t * m
  {
    Scale(k, q, m);
    assert (q * k + t) * m == q * k * m + t * m;
  }

  lemma {:induction false} LePairs(b: seq<byte>)
    ensures |b| == 1 ==> LeValue(b) == b[0]
    ensures |b| == 2 ==> LeValue(b) == b[1] as int * 0x100 + b[0]
    ensures |b| == 3 ==> LeValue(b) == b[2] as int * 0x1_0000 + b[1] as int * 0x100 + b[0]
    ensures |b| == 4 ==> LeValue(b) == b[3] as int * 0x100_0000 + b[2] as int * 0x1_0000 + b[1] as int * 0x100 + b[0]
    decreases |b|
  {
    if 0 < |b| <= 4 {
      LePairs(b[1..]);
      assert |b| == 1 ==> b[1..] == [];
    }
  }
}
