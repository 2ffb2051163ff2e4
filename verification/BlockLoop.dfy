/** When the loops over an event's blocks leave: their counter is a `uint8` and may step over the end for ever. */
module BlockLoop {
  import opened Bytes
  import opened Bits
  import opened Events
  import opened Commands

  function Gcd(a: nat, b: nat): nat
    decreases b
  {
    if b == 0 then a else Gcd(b, a % b)
  }

  lemma Distribute(x: int, y: int, z: int)
    ensures x * (y + z) == x * y + x * z && (y + z) * x == y * x + z * x
    ensures x * (y - z) == x * y - x * z && (y - z) * x == y * x - z * x
  {
  }

  lemma Associate(x: int, y: int, z: int)
    ensures x * (y * z) == (x * y) * z && x * y == y * x
  {
  }

  /** The greatest common divisor divides both numbers and is a combination of them. */
  lemma {:induction false} Bezout(a: nat, b: nat) returns (s: int, t: int, x: nat, y: nat)
    requires a > 0 || b > 0
    ensures Gcd(a, b) > 0 && s * a + t * b == Gcd(a, b)
    ensures a == x * Gcd(a, b) && b == y * Gcd(a, b)
    decreases b
  {
    if b == 0 {
      s, t, x, y := 1, 0, 1, 0;
    } else {
      var q, r, g := a / b, a % b, Gcd(a, b);
      DivDef(a, b);
      var s', t', x', y' := Bezout(b, r);
      s, t, x, y := t', s' - q * t', q * x' + y', x';
      Combine(a, b, q, r, s', t');
      Distribute(g, q * x', y');
      Associate(q, x', g);
    }
  }

  lemma Combine(a: int, b: int, q: int, r: int, s: int, t: int)
    requires a == q * b + r
    ensures t * a + (s - q * t) * b == s * b + t * r
  {
    Distribute(t, q * b, r);
    Distribute(b, s, q * t);
    Associate(t, q, b);
    Associate(q, t, b);
  }

  /** A multiple of g that is below m = y * g is at most m - g. */
  lemma BelowMultiple(v: int, z: int, y: int, g: int)
    requires g > 0 && v == z * g && v < y * g
    ensures v <= y * g - g
  {
    if z >= y {
      MulMonotone(y, z, g);
    }
    MulMonotone(z, y - 1, g);
    Distribute(g, y, 1);
  }

  /** The counter is always a multiple of the greatest common divisor, so it stays below 256 by at least that. */
  lemma CounterBound(et: EventType, n: nat)
    ensures Counter(et, n) <= 0x100 - Gcd(StepOf(et), 0x100)
  {
    var step := StepOf(et);
    var s, t, x, y := Bezout(step, 0x100);
    var g := Gcd(step, 0x100);
    BlockStartIs(et, n);
    var q := n * step / 0x100;
    DivDef(n * step, 0x100);
    Associate(n, x, g);
    Associate(q, y, g);
    Distribute(g, n * x, q * y);
    BelowMultiple(Counter(et, n), n * x - q * y, y, g);
  }

  /** Some round brings the counter to 256 less the greatest common divisor. */
  lemma CounterReaches(et: EventType) returns (n: nat)
    ensures Counter(et, n) == 0x100 - Gcd(StepOf(et), 0x100)
  {
    var step := StepOf(et);
    var s, t, x, y := Bezout(step, 0x100);
    var g := Gcd(step, 0x100);
    GcdBound(step, y);
    // The step, taken -s times, falls short of a multiple of 256 by g.
    n := -s % 0x100;
    BlockStartIs(et, n);
    var q := -s / 0x100;
    Shift(n, s, q, step, t, g);
    Residue(n * step, q * step, t, g);
  }

  lemma Shift(n: nat, s: int, q: int, step: nat, t: int, g: nat)
    requires -s == 0x100 * q + n && s * step + t * 0x100 == g
    ensures n * step == (t * 0x100 - g) - (q * step) * 0x100
  {
    assert n == -s - 0x100 * q;
    Distribute(step, -s, 0x100 * q);
    Associate(0x100, q, step);
    Negate(s, step);
  }

  lemma Negate(x: int, y: int)
    ensures (-x) * y == -(x * y)
  {
  }

  lemma GcdBound(step: nat, y: nat)
    requires step < 0x100 && Gcd(step, 0x100) > 0 && 0x100 == y * Gcd(step, 0x100)
    ensures Gcd(step, 0x100) <= 0x100
  {
    if y > 0 {
      MulMonotone(1, y, Gcd(step, 0x100));
    }
  }

  lemma Residue(v: nat, p: int, t: int, g: nat)
    requires 0 < g <= 0x100 && v == (t * 0x100 - g) - p * 0x100
    ensures v % 0x100 == 0x100 - g
  {
    ModUnique(t - 1 - p, 0x100, 0x100 - g, v);
  }

  /** If some round finds the counter at the end, a first one does. */
  lemma {:induction false} FirstRound(et: EventType, n: nat) returns (k: nat)
    requires Counter(et, n) >= et.blockLength
    ensures Exits(et, k)
    decreases n
  {
    if m: nat :| m < n && Counter(et, m) >= et.blockLength {
      k := FirstRound(et, m);
    } else {
      k := n;
    }
  }

  /**
   * The block loop leaves exactly if the block length is at most 256 less the greatest common divisor
   * of the step and 256.
   */
  lemma LoopLeavesIff(et: EventType)
    ensures (exists n: nat :: Exits(et, n)) <==> et.blockLength as int <= 0x100 - Gcd(StepOf(et), 0x100)
  {
    if n: nat :| Exits(et, n) {
      CounterBound(et, n);
    }
    if et.blockLength as int <= 0x100 - Gcd(StepOf(et), 0x100) {
      var n := CounterReaches(et);
      var k := FirstRound(et, n);
    }
  }

  lemma GcdValues()
    ensures Gcd(16, 0x100) == 16 && Gcd(0, 0x100) == 0x100
  {
    assert 0x100 % 16 == 0 && 16 % 0x100 == 16;
    assert Gcd(16, 0) == 16;
    assert Gcd(0x100, 16) == Gcd(16, 0);
    assert Gcd(16, 0x100) == Gcd(0x100, 16);
    assert Gcd(0x100, 0) == 0x100;
    assert Gcd(0, 0x100) == Gcd(0x100, 0);
  }

  /** Descriptions for which neither `VRead` nor `VWrite` ever comes back: a step of 16 towards 250, a step of 0 towards 5. */
  lemma LoopsForEver(et: EventType, n: nat)
    requires (et.blockLength, et.blockFactor) in {(250, 15), (5, 9)}
    ensures !Exits(et, n) && Counter(et, n) < et.blockLength
  {
    GcdValues();
    assert StepOf(et) == if et.blockLength == 5 then 0 else 16;
    hide Gcd, StepOf;
    CounterBound(et, n);
  }

  /** A block factor that does not divide the block length can do no harm: three does not divide ten. */
  lemma UnevenLeaves(et: EventType)
    requires (et.blockLength, et.blockFactor) == (10, 3)
    ensures Exits(et, 4) && !WellBlocked(et)
  {
    assert StepOf(et) == 3;
    assert BlockStart(et, 0) == 0;
    assert BlockStart(et, 1) == 3;
    assert BlockStart(et, 2) == 6;
    assert BlockStart(et, 3) == 9;
    assert BlockStart(et, 4) == 12;
    hide BlockStart;
  }
}
