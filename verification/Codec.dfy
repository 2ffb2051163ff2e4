/** In-place encoders and decoders for value lists and scaled numbers. */
module Codec {
  import opened Bytes
  import opened Bits
  import opened Events

  /** Conversion of a float to an integer drops the fraction. */
  function Trunc(r: real): int {
    if r >= 0.0 then r.Floor else -((-r).Floor)
  }

  /** Index arithmetic on `uint8`. */
  function Ix(pos: byte, k: nat): byte {
    (pos + k) % 0x100
  }

  // ----------------------------------------------------------- fields of a byte

  lemma {:induction false} ShrBound(x: nat, p: nat)
    ensures Shr(x, p) <= x
    decreases p
  {
    if p > 0 {
      ShrBound(x / 2, p - 1);
    }
  }

  lemma {:induction false} AndBound(x: nat, y: nat)
    ensures And(x, y) <= x && AndNot(x, y) <= x
    decreases x
  {
    if x > 0 {
      AndBound(x / 2, y / 2);
    }
  }

  lemma {:induction false} OrBound(x: nat, y: nat, n: nat)
    requires x < Pow2(n) && y < Pow2(n)
    ensures Or(x, y) < Pow2(n)
    decreases n
  {
    if x > 0 && n > 0 {
      OrBound(x / 2, y / 2, n - 1);
    }
  }

  lemma Pow2Of8()
    ensures Pow2(8) == 0x100
  {
    assert Pow2(4) == 16;
  }

  /** `(x >> p) & ((1 << w) - 1)` */
  function GetField(x: byte, p: nat, w: nat): byte {
    ShrBound(x, p);
    AndBound(Shr(x, p), Ones(w));
    And(Shr(x, p), Ones(w))
  }

  /** `(x &^ (((1 << w) - 1) << p)) | (byte(d) << p)`, all in `byte`. */
  function SetField(x: byte, p: nat, w: nat, d: nat): byte {
    var e, f := AndNot(x, Shl(Ones(w), p) % 0x100), Shl(d % 0x100, p) % 0x100;
    AndBound(x, Shl(Ones(w), p) % 0x100);
    Pow2Of8();
    OrBound(e, f, 8);
    Or(e, f)
  }

  lemma SetFieldBits(x: byte, p: nat, w: nat, d: nat, k: nat)
    requires p < 8 && k < 8
    ensures Bit(SetField(x, p, w, d), k) ==
            if k < p then Bit(x, k)
            else if k < p + w then Bit(d, k - p)
            else Bit(x, k) || Bit(d, k - p)
  {
    var mask := Shl(Ones(w), p);
    AndNotBits(x, mask % 0x100, k);
    ByteBits(mask, k);
    ShlBits(Ones(w), p, k);
    if k >= p {
      OnesBits(w, k - p);
      ByteBits(d, k - p);
    }
    var f := Shl(d % 0x100, p);
    ByteBits(f, k);
    ShlBits(d % 0x100, p, k);
    OrBits(AndNot(x, mask % 0x100), f % 0x100, k);
  }

  lemma GetFieldBits(x: byte, p: nat, w: nat, k: nat)
    ensures Bit(GetField(x, p, w), k) == (k < w && Bit(x, k + p))
  {
    ShrBits(x, p, k);
    OnesBits(w, k);
    AndBits(Shr(x, p), Ones(w), k);
  }

  lemma HighBitsOfByte(x: byte, k: nat)
    requires k >= 8
    ensures !Bit(x, k)
  {
    ByteBits(x, k);
  }

  /** A field reads back as the bits of the number that fit into it. */
  lemma FieldReadsBack(x: byte, p: nat, w: nat, d: nat)
    requires p < 8 && w <= 8
    ensures GetField(SetField(x, p, w, d), p, w) == Low(d, Min(w, 8 - p))
  {
    var y := SetField(x, p, w, d);
    var n := Min(w, 8 - p);
    forall k: nat | k < 8
      ensures Bit(GetField(y, p, w), k) == Bit(Low(d, n), k)
    {
      GetFieldBits(y, p, w, k);
      LowBits(d, n, k);
      if k + p < 8 {
        SetFieldBits(x, p, w, d, k + p);
      } else {
        HighBitsOfByte(y, k + p);
      }
    }
    Pow2Of8();
    LowMonotone(d, n, 8);
    LowBound(d, 8);
    SameBits(GetField(y, p, w), Low(d, n), 8);
  }

  lemma {:induction false} LowMonotone(x: nat, m: nat, n: nat)
    requires m <= n
    ensures Low(x, m) <= Low(x, n)
    decreases m
  {
    if m > 0 {
      LowMonotone(x / 2, m - 1, n - 1);
    }
  }

  /** No bit of `d` reaches beyond the field and stays inside the byte. */
  predicate FieldFits(d: nat, p: nat, w: nat) {
    forall k: nat :: w <= k < 8 - p ==> !Bit(d, k)
  }

  /** Setting the field leaves the other bits of the byte alone. */
  ghost predicate FieldAlone(x: byte, p: nat, w: nat, d: nat) {
    forall k: nat :: k < 8 && !(p <= k < p + w) ==> Bit(SetField(x, p, w, d), k) == Bit(x, k)
  }

  /** The other bits of the byte survive, for every byte, exactly when the number fits the field. */
  lemma FieldFrame(p: nat, w: nat, d: nat)
    requires p < 8 && w <= 8
    ensures FieldFits(d, p, w) <==> forall x: byte :: FieldAlone(x, p, w, d)
  {
    if FieldFits(d, p, w) {
      forall x: byte
        ensures FieldAlone(x, p, w, d)
      {
        forall k: nat | k < 8 && !(p <= k < p + w)
          ensures Bit(SetField(x, p, w, d), k) == Bit(x, k)
        {
          SetFieldBits(x, p, w, d, k);
          assert k >= p + w ==> !Bit(d, k - p);
        }
      }
    } else {
      var k: nat :| w <= k < 8 - p && Bit(d, k);
      SetFieldBits(0, p, w, d, k + p);
      ZeroBits(k + p);
      assert !FieldAlone(0, p, w, d);
    }
  }

  /** A number below 2^w fits every field of w bits. */
  lemma SmallFits(d: nat, p: nat, w: nat)
    requires d < Pow2(w)
    ensures FieldFits(d, p, w)
  {
    LowBound(d, w);
    forall k: nat | w <= k < 8 - p
      ensures !Bit(d, k)
    {
      LowBits(d, w, k);
    }
  }

  /** A field is a quotient and a remainder of its byte. */
  lemma FieldIs(x: byte, p: nat, w: nat)
    ensures GetField(x, p, w) == x / Pow2(p) % Pow2(w)
  {
    AndOnes(Shr(x, p), w);
    LowMod(Shr(x, p), w);
    ShrIs(x, p);
  }

  // ------------------------------------------------------------------ value list

  /** A fraction is cut off towards zero. */
  lemma TruncTowardZero(q: real)
    ensures q >= 0.0 ==> 0 <= Trunc(q) && Trunc(q) as real <= q < Trunc(q) as real + 1.0
    ensures q <= 0.0 ==> Trunc(q) <= 0 && Trunc(q) as real - 1.0 < q <= Trunc(q) as real
  {
  }

  function ValueListNumber(v: Value): Coded<nat> {
    match v
    case Int(n) => Done(n % 0x1_0000)
    case Real(r) => Done(Trunc(r) % 0x1_0000)
    case _ => Rejected
  }

  function ValueListGet(et: EventType, b: seq<byte>): Coded<nat> {
    if et.bitLength > 8 then Rejected
    else if et.bitLength > 0 then
      var pos := et.bitPosition / 8;
      if pos >= |b| then Panicked else Done(GetField(b[pos], et.bitPosition % 8, et.bitLength))
    else if et.byteLength == 1 then
      if et.bytePosition >= |b| then Panicked else Done(b[et.bytePosition])
    else
      var hi := Ix(et.bytePosition, 1);
      if hi >= |b| || et.bytePosition >= |b| then Panicked
      else Done(b[hi] as int * 0x100 + b[et.bytePosition])
  }

  function ValueListPut(et: EventType, b: seq<byte>, v: Value): Coded<seq<byte>> {
    if et.bitLength > 8 then Rejected
    else
      match ValueListNumber(v)
      case Rejected => Rejected
      case Panicked => Panicked
      case Done(d) =>
        if et.bitLength > 0 then
          var pos := et.bitPosition / 8;
          if pos >= |b| then Panicked else Done(b[pos := SetField(b[pos], et.bitPosition % 8, et.bitLength, d)])
        else if et.byteLength == 1 then
          if et.bytePosition >= |b| then Panicked else Done(b[et.bytePosition := d % 0x100])
        else
          var hi := Ix(et.bytePosition, 1);
          if hi >= |b| || et.bytePosition >= |b| then Panicked
          else Done(b[hi := d / 0x100 % 0x100][et.bytePosition := d % 0x100])
  }

  /**
   * What a panic leaves behind: behind byte 255 the index of the high byte has wrapped to 0, so that
   * byte is already written when the low byte turns out to be missing.
   */
  function ValueListTorn(et: EventType, b: seq<byte>, v: Value): seq<byte> {
    var d := ValueListNumber(v);
    if et.bitLength == 0 && et.byteLength != 1 && et.bytePosition == 0xff && 0 < |b| <= 0xff && d.Done?
    then b[0 := d.value / 0x100 % 0x100]
    else b
  }

  method ValueListEncode(et: EventType, b: array<byte>, v: Value) returns (r: Coded<()>)
    modifies b
    ensures match ValueListPut(et, old(b[..]), v)
            case Done(s) => r == Done(()) && b[..] == s
            case Rejected => r == Rejected && b[..] == old(b[..])
            case Panicked => r == Panicked && b[..] == ValueListTorn(et, old(b[..]), v)
  {
    if et.bitLength > 8 {
      return Rejected;
    }
    var d;
    match v {
      case Int(n) => d := n % 0x1_0000;
      case Real(x) => d := Trunc(x) % 0x1_0000;
      case _ => return Rejected;
    }
    if et.bitLength > 0 {
      var pos, bitpos := et.bitPosition / 8, et.bitPosition % 8;
      if pos >= b.Length {
        return Panicked;
      }
      b[pos] := SetField(b[pos], bitpos, et.bitLength, d);
    } else if et.byteLength == 1 {
      if et.bytePosition >= b.Length {
        return Panicked;
      }
      b[et.bytePosition] := d % 0x100;
    } else {
      var hi := Ix(et.bytePosition, 1);
      if hi >= b.Length {
        return Panicked;
      }
      b[hi] := d / 0x100 % 0x100;
      if et.bytePosition >= b.Length {
        return Panicked;
      }
      b[et.bytePosition] := d % 0x100;
    }
    r := Done(());
  }

  // -------------------------------------------------------------- scaled numbers

  predicate Signed(et: EventType) {
    match et.byteLength
    case 1 => et.parameter.SByte? || et.parameter.SInt?
    case 2 => et.parameter.SInt? || et.parameter.SIntHighByteFirst?
    case 4 => et.parameter.SInt? || et.parameter.SInt4?
    case _ => false
  }

  predicate HighByteFirst(et: EventType) {
    et.byteLength == 2 && (et.parameter.SIntHighByteFirst? || et.parameter.IntHighByteFirst?)
  }

  predicate Nibble(et: EventType) {
    et.byteLength == 1 && !Signed(et) && et.bitLength == 4
  }

  /** The checks both directions make first. */
  predicate Convertible(et: EventType, b: seq<byte>) {
    && |b| >= et.bytePosition as int + et.byteLength
    && (et.bitLength > 0 ==> et.byteLength == 1 && et.bitLength == 4)
    && 1 <= et.byteLength <= 4
  }

  function TwosComplement(x: nat, modulus: nat): int {
    if 2 * x >= modulus then x - modulus else x
  }

  /** The raw integer as the decoder reads it, case by case. */
  function DivMulGet(et: EventType, b: seq<byte>): Coded<int> {
    if !Convertible(et, b) then Rejected
    else
      var c := b[et.bytePosition..et.bytePosition as int + et.byteLength];
      match et.byteLength
      case 1 =>
        if et.parameter.SByte? || et.parameter.SInt? then Done(TwosComplement(c[0], 0x100))
        else if et.bitLength == 4 && et.bitPosition == 0 then Done(Shr(c[0], 4))
        else if et.bitLength == 4 && et.bitPosition == 4 then Done(And(c[0], 0xf))
        else Done(c[0])
      case 2 =>
        var h, l := if HighByteFirst(et) then 0 else 1, if HighByteFirst(et) then 1 else 0;
        var v := c[h] as int * 0x100 + c[l];
        Done(if et.parameter.SInt? || et.parameter.SIntHighByteFirst? then TwosComplement(v, 0x1_0000) else v)
      case 3 =>
        Done(c[2] as int * 0x1_0000 + c[1] as int * 0x100 + c[0])
      case _ =>
        var v := c[3] as int * 0x100_0000 + c[2] as int * 0x1_0000 + c[1] as int * 0x100 + c[0];
        Done(if et.parameter.SInt? || et.parameter.SInt4? then TwosComplement(v, 0x1_0000_0000) else v)
  }

  function DivMulDecode(et: EventType, b: seq<byte>): Coded<real> {
    match DivMulGet(et, b)
    case Done(raw) => Done(Physical(et, raw))
    case Rejected => Rejected
    case Panicked => Panicked
  }

  /** The value a raw number stands for. */
  function Physical(et: EventType, raw: int): real {
    raw as real * et.factor + et.offset
  }

  function Number(v: Value): Coded<real> {
    match v
    case Int(n) => Done(n as real)
    case Real(r) => Done(r)
    case _ => Rejected
  }

  function Clamp(et: EventType, x: real): real {
    if et.lower == et.upper then x
    else
      var y := if x < et.lower then et.lower else x;
      if y > et.upper then et.upper else y
  }

  function RawOf(et: EventType, x: real): int
    requires et.factor != 0.0
  {
    Trunc((Clamp(et, x) - et.offset) / et.factor)
  }

  function HighNibble(x: byte, d: byte): byte {
    AndBound(x, 0xf);
    Pow2Of8();
    OrBound(And(x, 0xf), Shl(d, 4) % 0x100, 8);
    Or(And(x, 0xf), Shl(d, 4) % 0x100)
  }

  function LowNibble(x: byte, d: byte): byte {
    AndBound(x, 0xf0);
    Pow2Of8();
    OrBound(And(x, 0xf0), d, 8);
    Or(And(x, 0xf0), d)
  }

  /** The digits of the raw number in the order in which they lie in the buffer. */
  function Digits(et: EventType, raw: int): (s: seq<byte>)
    requires 1 <= et.byteLength <= 4
    ensures |s| == et.byteLength
  {
    var d0, d1, d2, d3 := raw % 0x100, raw / 0x100 % 0x100, raw / 0x1_0000 % 0x100, raw / 0x100_0000 % 0x100;
    if HighByteFirst(et) then [d1, d0] else [d0, d1, d2, d3][..et.byteLength]
  }

  function Splice(b: seq<byte>, pos: nat, s: seq<byte>): (r: seq<byte>)
    requires pos + |s| <= |b|
    ensures |r| == |b|
  {
    b[..pos] + s + b[pos + |s|..]
  }

  /** The buffer with the raw number in its place. */
  function DivMulPut(et: EventType, b: seq<byte>, raw: int): (r: seq<byte>)
    requires Convertible(et, b)
    ensures |r| == |b|
  {
    var pos := et.bytePosition;
    if !Nibble(et) then Splice(b, pos, Digits(et, raw))
    else if et.bitPosition == 0 then b[pos := HighNibble(b[pos], raw % 0x100)]
    else if et.bitPosition == 4 then b[pos := LowNibble(b[pos], raw % 0x100)]
    else b
  }

  function DivMulEncode(et: EventType, b: seq<byte>, v: Value): Coded<seq<byte>>
    requires et.factor != 0.0
  {
    match Number(v)
    case Done(x) => if Convertible(et, b) then Done(DivMulPut(et, b, RawOf(et, x))) else Rejected
    case Rejected => Rejected
    case Panicked => Panicked
  }

  /** Writes the number in place, case by case. */
  method DivMulEncodeInPlace(et: EventType, b: array<byte>, v: Value) returns (r: Coded<()>)
    requires et.factor != 0.0
    modifies b
    ensures match DivMulEncode(et, old(b[..]), v)
            case Done(s) => r == Done(()) && b[..] == s
            case Rejected => r == Rejected && b[..] == old(b[..])
            case Panicked => r == Panicked && b[..] == old(b[..])
  {
    hide Trunc, DivMulPut;
    if b.Length < et.bytePosition as int + et.byteLength {
      return Rejected;
    }
    if et.bitLength > 0 && !(et.byteLength == 1 && et.bitLength == 4) {
      return Rejected;
    }
    var f;
    match v {
      case Int(n) => f := n as real;
      case Real(x) => f := x;
      case _ => return Rejected;
    }
    if et.lower != et.upper {
      if f < et.lower {
        f := et.lower;
      }
      if f > et.upper {
        f := et.upper;
      }
    }
    assert f == Clamp(et, Number(v).value);
    hide Clamp;
    f := (f - et.offset) / et.factor;
    var raw := Trunc(f);
    if 1 <= et.byteLength <= 4 {
      PutRaw(et, b, raw);
      r := Done(());
    } else {
      r := Rejected;
    }
  }

  method PutRaw(et: EventType, b: array<byte>, raw: int)
    requires Convertible(et, b[..])
    modifies b
    ensures b[..] == DivMulPut(et, old(b[..]), raw)
  {
    var pos: nat := et.bytePosition;
    match et.byteLength {
      case 1 =>
        if et.parameter.SByte? || et.parameter.SInt? {
          b[pos] := raw % 0x100;
        } else {
          var d := raw % 0x100;
          if et.bitLength == 4 {
            if et.bitPosition == 0 {
              b[pos] := HighNibble(b[pos], d);
            } else if et.bitPosition == 4 {
              b[pos] := LowNibble(b[pos], d);
            }
          } else {
            b[pos] := d;
          }
        }
      case 2 =>
        if et.parameter.SIntHighByteFirst? || et.parameter.IntHighByteFirst? {
          b[pos + 1] := raw % 0x100;
          b[pos] := raw / 0x100 % 0x100;
        } else {
          b[pos] := raw % 0x100;
          b[pos + 1] := raw / 0x100 % 0x100;
        }
      case 3 =>
        b[pos] := raw % 0x100;
        b[pos + 1] := raw / 0x100 % 0x100;
        b[pos + 2] := raw / 0x1_0000 % 0x100;
      case _ =>
        b[pos] := raw % 0x100;
        b[pos + 1] := raw / 0x100 % 0x100;
        b[pos + 2] := raw / 0x1_0000 % 0x100;
        b[pos + 3] := raw / 0x100_0000 % 0x100;
    }
  }

  // ------------------------------------------------ scaled numbers: round trips

  /** The raw numbers the place in the buffer can hold. */
  predicate InRange(et: EventType, raw: int) {
    if Nibble(et) then 0 <= raw < 0x10
    else if Signed(et) then -(Pow256(et.byteLength) as int) <= 2 * raw < Pow256(et.byteLength)
    else 0 <= raw < Pow256(et.byteLength)
  }

  /** A nibble is only ever written at bit position 0 (the high one) or 4 (the low one). */
  predicate Placed(et: EventType) {
    Nibble(et) ==> et.bitPosition == 0 || et.bitPosition == 4
  }

  lemma HighNibbleBits(x: byte, d: byte, k: nat)
    requires k < 8
    ensures Bit(HighNibble(x, d), k) == if k < 4 then Bit(x, k) else Bit(d, k - 4)
  {
    AndBits(x, 0xf, k);
    assert Ones(4) == 0xf;
    OnesBits(4, k);
    ByteBits(Shl(d, 4), k);
    ShlBits(d, 4, k);
    OrBits(And(x, 0xf), Shl(d, 4) % 0x100, k);
  }

  lemma LowNibbleBits(x: byte, d: byte, k: nat)
    requires k < 8
    ensures Bit(LowNibble(x, d), k) == ((k >= 4 && Bit(x, k)) || Bit(d, k))
  {
    AndBits(x, 0xf0, k);
    assert Ones(4) == 0xf && Shl(0xf, 4) == 0xf0;
    ShlBits(0xf, 4, k);
    if k >= 4 {
      OnesBits(4, k - 4);
    }
    OrBits(And(x, 0xf0), d, k);
  }

  lemma NibbleReadsBack(x: byte, d: byte)
    requires d < 0x10
    ensures Shr(HighNibble(x, d), 4) == d && And(LowNibble(x, d), 0xf) == d
  {
    assert Pow2(4) == 0x10 && Ones(4) == 0xf;
    LowBound(d, 4);
    var h, l := HighNibble(x, d), LowNibble(x, d);
    forall k: nat | k < 8
      ensures Bit(Shr(h, 4), k) == Bit(d, k) && Bit(And(l, 0xf), k) == Bit(d, k)
    {
      ShrBits(h, 4, k);
      AndBits(l, 0xf, k);
      OnesBits(4, k);
      LowBits(d, 4, k);
      if k < 4 {
        HighNibbleBits(x, d, k + 4);
      } else {
        HighBitsOfByte(h, k + 4);
      }
      LowNibbleBits(x, d, k);
    }
    ShrBound(h, 4);
    AndBound(l, 0xf);
    Pow2Of8();
    SameBits(Shr(h, 4), d, 8);
    SameBits(And(l, 0xf), d, 8);
  }

  lemma HighNibbleWritesBack(x: byte)
    ensures HighNibble(x, Shr(x, 4) % 0x100) == x
  {
    hide And, Or, Shl, Shr;
    ShrBound(x, 4);
    var d: byte := Shr(x, 4);
    var h := HighNibble(x, d);
    forall k: nat | k < 8
      ensures Bit(h, k) == Bit(x, k)
    {
      HighNibbleBits(x, d, k);
      if k >= 4 {
        ShrBits(x, 4, k - 4);
      }
    }
    Pow2Of8();
    SameBits(h, x, 8);
  }

  lemma And15Bits(x: byte, k: nat)
    ensures Bit(And(x, 0xf), k) == (k < 4 && Bit(x, k))
  {
    hide And, Bit;
    AndBits(x, 0xf, k);
    assert Ones(4) == 0xf;
    OnesBits(4, k);
  }

  lemma LowNibbleWritesBack(x: byte)
    ensures LowNibble(x, And(x, 0xf) % 0x100) == x
  {
    hide And, Or, Bit, LowNibble;
    AndBound(x, 0xf);
    var d: byte := And(x, 0xf);
    forall k: nat | k < 8
      ensures Bit(LowNibble(x, d), k) == Bit(x, k)
    {
      LowNibbleBits(x, d, k);
      And15Bits(x, k);
    }
    Pow2Of8();
    SameBits(LowNibble(x, d), x, 8);
  }

  lemma ShrStep(x: nat, p: nat)
    ensures Shr(x, p + 1) == Shr(x / 2, p)
  {
  }

  lemma NibbleGetBound(x: byte)
    ensures Shr(x, 4) < 0x10 && And(x, 0xf) < 0x10
  {
    AndBound(0xf, x);
    ShrStep(x, 3);
    ShrStep(x / 2, 2);
    ShrStep(x / 4, 1);
    ShrStep(x / 8, 0);
    assert Pow2(4) == 0x10 && Ones(4) == 0xf;
    forall k: nat | k < 8
      ensures Bit(And(x, 0xf), k) == Bit(Low(x, 4), k)
    {
      AndBits(x, 0xf, k);
      OnesBits(4, k);
      LowBits(x, 4, k);
    }
    AndBound(x, 0xf);
    LowBound(x, 4);
    Pow2Of8();
    SameBits(And(x, 0xf), Low(x, 4), 8);
  }

  lemma SmallPowers()
    ensures Pow256(1) == 0x100 && Pow256(2) == 0x1_0000 && Pow256(3) == 0x100_0000 && Pow256(4) == 0x1_0000_0000
  {
    assert Pow256(2) == 0x100 * Pow256(1);
  }

  /** Every raw number in range reads back, for every width, sign, byte order and nibble. */
  lemma RawReadsBack(et: EventType, b: seq<byte>, raw: int)
    requires Convertible(et, b) && InRange(et, raw) && Placed(et)
    ensures DivMulGet(et, DivMulPut(et, b, raw)) == Done(raw)
  {
    if Nibble(et) {
      NibbleInPlace(et, b, raw);
    } else {
      hide DivMulGet, Digits, InRange;
      var pos := et.bytePosition as int;
      var c := DivMulPut(et, b, raw);
      assert c[pos..pos + et.byteLength] == Digits(et, raw);
      DigitsReadBack(et, c, raw);
    }
  }

  lemma NibbleInPlace(et: EventType, b: seq<byte>, raw: int)
    requires Convertible(et, b) && InRange(et, raw) && Placed(et) && Nibble(et)
    ensures DivMulGet(et, DivMulPut(et, b, raw)) == Done(raw)
  {
    hide HighNibble, LowNibble, Shr, And, Splice;
    NibbleReadsBack(b[et.bytePosition], raw);
  }

  lemma DigitsReadBack(et: EventType, c: seq<byte>, raw: int)
    requires Convertible(et, c) && InRange(et, raw) && !Nibble(et)
    requires c[et.bytePosition..et.bytePosition as int + et.byteLength] == Digits(et, raw)
    ensures DivMulGet(et, c) == Done(raw)
  {
    SmallPowers();
    DigitsSpell(raw);
    if Signed(et) {
      TwosComplementBack(raw, Pow256(et.byteLength));
    } else {
      ModUnique(0, Pow256(et.byteLength), raw, raw);
    }
  }

  lemma TwosComplementBack(raw: int, m: nat)
    requires m > 0 && m % 2 == 0 && -(m as int) <= 2 * raw < m
    ensures TwosComplement(raw % m, m) == raw
  {
    if raw >= 0 {
      ModUnique(0, m, raw, raw);
    } else {
      ModUnique(-1, m, raw + m, raw);
    }
  }

  lemma Quotients(x: int)
    ensures x / 0x100 / 0x100 == x / 0x1_0000 && x / 0x1_0000 / 0x100 == x / 0x100_0000
  {
  }

  /** The digits in Horner's scheme. */
  lemma DigitsSpell(raw: int)
    ensures raw / 0x100 % 0x100 * 0x100 + raw % 0x100 == raw % 0x1_0000
    ensures raw / 0x1_0000 % 0x100 * 0x1_0000 + raw / 0x100 % 0x100 * 0x100 + raw % 0x100 == raw % 0x100_0000
    ensures raw / 0x100_0000 % 0x100 * 0x100_0000 + raw / 0x1_0000 % 0x100 * 0x1_0000 + raw / 0x100 % 0x100 * 0x100 + raw % 0x100
            == raw % 0x1_0000_0000
  {
    Quotients(raw);
    DivMod256(raw, 0x100);
    DivMod256(raw / 0x100, 0x100);
    DivMod256(raw / 0x1_0000, 0x100);
    DivMod256(raw, 0x1_0000);
    DivMod256(raw / 0x100, 0x1_0000);
    DivMod256(raw, 0x100_0000);
  }

  /** Writing back what was read changes nothing. */
  lemma RawWritesBack(et: EventType, b: seq<byte>)
    requires Convertible(et, b)
    ensures DivMulGet(et, b).Done?
    ensures Placed(et) ==> InRange(et, DivMulGet(et, b).value)
    ensures DivMulPut(et, b, DivMulGet(et, b).value) == b
  {
    var pos := et.bytePosition as int;
    SmallPowers();
    if Nibble(et) {
      NibbleGetBound(b[pos]);
      HighNibbleWritesBack(b[pos]);
      LowNibbleWritesBack(b[pos]);
    } else {
      DigitsOf(et, b[pos..pos + et.byteLength], DivMulGet(et, b).value);
      assert b == b[..pos] + b[pos..pos + et.byteLength] + b[pos + et.byteLength..];
    }
  }

  lemma DigitsOf(et: EventType, c: seq<byte>, raw: int)
    requires 1 <= et.byteLength <= 4 && |c| == et.byteLength && !Nibble(et)
    requires DivMulGet(et.(bytePosition := 0), c) == Done(raw)
    ensures Digits(et, raw) == c
  {
    assert c[0..|c|] == c;
    Quotients(raw);
    match et.byteLength {
      case 1 =>
        Horner(raw, raw / 0x100, c[0]);
      case 2 =>
        var s: int := if raw < 0 then -1 else 0;
        var h, l := if HighByteFirst(et) then c[0] else c[1], if HighByteFirst(et) then c[1] else c[0];
        Horner(raw, s * 0x100 + h, l);
        Horner(s * 0x100 + h, s, h);
      case 3 =>
        Horner(raw, c[2] as int * 0x100 + c[1], c[0]);
        Horner(c[2] as int * 0x100 + c[1], c[2], c[1]);
        Horner(c[2], 0, c[2]);
      case _ =>
        DigitsOfFour(if raw < 0 then -1 else 0, raw, c[0], c[1], c[2], c[3]);
    }
  }

  lemma DigitsOfFour(s: int, raw: int, c0: byte, c1: byte, c2: byte, c3: byte)
    requires raw == s * 0x1_0000_0000 + c3 as int * 0x100_0000 + c2 as int * 0x1_0000 + c1 as int * 0x100 + c0
    ensures raw % 0x100 == c0 && raw / 0x100 % 0x100 == c1
    ensures raw / 0x1_0000 % 0x100 == c2 && raw / 0x100_0000 % 0x100 == c3
  {
    var x3: int := s * 0x100 + c3;
    var x2: int := x3 * 0x100 + c2;
    var x1: int := x2 * 0x100 + c1;
    Horner(raw, x1, c0);
    Horner(x1, x2, c1);
    Horner(x2, x3, c2);
    Horner(x3, s, c3);
    Quotients(raw);
  }

  lemma Horner(x: int, y: int, d: byte)
    requires x == 0x100 * y + d
    ensures x / 0x100 == y && x % 0x100 == d
  {
  }

  /**
   * A nibble at another bit position is read as the whole byte and never written: a written nibble
   * reads back for every byte exactly at positions 0 and 4.
   */
  lemma NibblePositions(et: EventType)
    requires Nibble(et)
    ensures Placed(et) <==>
              forall b: seq<byte>, raw: int :: Convertible(et, b) && InRange(et, raw) ==>
                DivMulGet(et, DivMulPut(et, b, raw)) == Done(raw)
  {
    if Placed(et) {
      forall b: seq<byte>, raw: int | Convertible(et, b) && InRange(et, raw)
        ensures DivMulGet(et, DivMulPut(et, b, raw)) == Done(raw)
      {
        RawReadsBack(et, b, raw);
      }
    } else {
      var b: seq<byte> := seq(et.bytePosition as int + 1, i => 0);
      assert Convertible(et, b) && InRange(et, 1);
      assert DivMulGet(et, DivMulPut(et, b, 1)) == Done(0);
    }
  }

  // --------------------------------------------- scaled numbers: the real values

  lemma TruncNear(q: real)
    ensures -1.0 < Trunc(q) as real - q < 1.0
  {
  }

  function Abs(x: real): real {
    if x < 0.0 then -x else x
  }

  lemma ScaleNear(d: real, f: real, z: real)
    requires -1.0 < d < 1.0 && f != 0.0 && z == d * f
    ensures -Abs(f) < z < Abs(f)
  {
    if f > 0.0 {
      assert d * f < 1.0 * f && d * f > -1.0 * f;
    } else {
      assert d * f > 1.0 * f && d * f < -1.0 * f;
    }
  }

  lemma Unscale(x: real, f: real)
    requires f != 0.0
    ensures (x / f) * f == x
  {
  }

  lemma Distribute(a: real, q: real, f: real)
    ensures (a - q) * f == a * f - q * f
  {
  }

  lemma StepsAway(et: EventType, raw: int, y: real)
    requires et.factor != 0.0 && raw == Trunc((y - et.offset) / et.factor)
    ensures Abs(Physical(et, raw) - y) < Abs(et.factor)
  {
    hide Trunc;
    var f, o := et.factor, et.offset;
    var q := (y - o) / f;
    TruncNear(q);
    Unscale(y - o, f);
    Distribute(raw as real, q, f);
    ScaleNear(raw as real - q, f, Physical(et, raw) - y);
  }

  /** What is decoded after encoding differs from the clamped value by less than one step. */
  lemma ScaledClose(et: EventType, b: seq<byte>, x: real)
    requires et.factor != 0.0 && Convertible(et, b) && Placed(et) && InRange(et, RawOf(et, x))
    ensures DivMulEncode(et, b, Real(x)).Done?
    ensures var r := DivMulDecode(et, DivMulEncode(et, b, Real(x)).value);
            r.Done? && Abs(r.value - Clamp(et, x)) < Abs(et.factor)
  {
    hide DivMulGet, DivMulPut, Trunc, Clamp;
    RawReadsBack(et, b, RawOf(et, x));
    hide Physical;
    StepsAway(et, RawOf(et, x), Clamp(et, x));
  }

  lemma Rescale(et: EventType, raw: int)
    requires et.factor != 0.0
    ensures Trunc((Physical(et, raw) - et.offset) / et.factor) == raw
  {
    Divide(raw as real, et.factor);
    assert Physical(et, raw) - et.offset == raw as real * et.factor;
  }

  lemma Divide(x: real, f: real)
    requires f != 0.0
    ensures (x * f) / f == x
  {
  }

  lemma ClampInside(et: EventType, x: real)
    requires et.lower != et.upper ==> et.lower <= x <= et.upper
    ensures Clamp(et, x) == x
  {
  }

  /** Encoding what was decoded leaves the buffer as it is, if the value respects the borders. */
  lemma ScaledFixed(et: EventType, b: seq<byte>)
    requires et.factor != 0.0 && Convertible(et, b)
    requires var r := DivMulDecode(et, b);
             r.Done? && (et.lower != et.upper ==> et.lower <= r.value <= et.upper)
    ensures DivMulEncode(et, b, Real(DivMulDecode(et, b).value)) == Done(b)
  {
    hide DivMulGet, DivMulPut, Trunc, Clamp, Physical;
    RawWritesBack(et, b);
    var raw, v := DivMulGet(et, b).value, DivMulDecode(et, b).value;
    ClampInside(et, v);
    Rescale(et, raw);
  }

  // ----------------------------------------------------------- the bits a codec owns

  /** The bits of the buffer that the description assigns to a value list or a scaled number. */
  predicate Owns(et: EventType, j: nat, k: nat) {
    match et.codec
    case ValueList =>
      if et.bitLength > 0 then j == et.bitPosition / 8 && et.bitPosition % 8 <= k < et.bitPosition % 8 + et.bitLength
      else et.bytePosition <= j < et.bytePosition as int + et.byteLength
    case DivMulOffset =>
      if !Nibble(et) then et.bytePosition <= j < et.bytePosition as int + et.byteLength
      else j == et.bytePosition && if et.bitPosition == 0 then 4 <= k else et.bitPosition == 4 && k < 4
    case _ => false
  }

  /** Both buffers have the same length and agree on every bit the codec does not own. */
  ghost predicate AgreeElsewhere(et: EventType, b: seq<byte>, c: seq<byte>) {
    && |b| == |c|
    && forall j: nat, k: nat :: j < |b| && k < 8 && !Owns(et, j, k) ==> Bit(c[j], k) == Bit(b[j], k)
  }

  /** The value stays inside the place the codec owns, so that no other bit is touched. */
  predicate StaysInside(et: EventType, v: Value) {
    match et.codec
    case ValueList =>
      if et.bitLength == 0 then et.byteLength == 1 || (et.byteLength > 1 && et.bytePosition < 0xff)
      else (var d := ValueListNumber(v); d.Done? ==> FieldFits(d.value, et.bitPosition % 8, et.bitLength))
    case DivMulOffset =>
      Nibble(et) && et.bitPosition == 4 && et.factor != 0.0 ==>
        (var x := Number(v); x.Done? ==> RawOf(et, x.value) % 0x100 < 0x10)
    case _ => true
  }

  lemma ValueListFrame(et: EventType, b: seq<byte>, v: Value)
    requires et.codec.ValueList? && StaysInside(et, v) && ValueListPut(et, b, v).Done?
    ensures AgreeElsewhere(et, b, ValueListPut(et, b, v).value)
  {
    if et.bitLength > 0 {
      var pos := et.bitPosition / 8;
      FieldFrame(et.bitPosition % 8, et.bitLength, ValueListNumber(v).value);
      assert FieldAlone(b[pos], et.bitPosition % 8, et.bitLength, ValueListNumber(v).value);
    }
  }

  lemma DifferingBit(x: byte, y: byte)
    requires x != y
    ensures exists k: nat :: k < 8 && Bit(x, k) != Bit(y, k)
  {
    Pow2Of8();
    if forall k: nat :: k < 8 ==> Bit(x, k) == Bit(y, k) {
      SameBits(x, y, 8);
    }
  }

  /** A byte written outside the place of the codec shows in some buffer of the same size. */
  lemma ByteSpills(et: EventType, c: seq<byte>, c': seq<byte>, j: nat)
    requires j < |c| == |c'| && c[j] != c'[j] && forall k: nat :: k < 8 ==> !Owns(et, j, k)
    ensures !AgreeElsewhere(et, c, c')
  {
    DifferingBit(c[j], c'[j]);
  }

  lemma ValueListSpills(et: EventType, c: seq<byte>, v: Value)
    requires et.codec.ValueList? && !StaysInside(et, v) && ValueListPut(et, c, v).Done?
    ensures exists b: seq<byte> ::
              |b| == |c| && ValueListPut(et, b, v).Done? && !AgreeElsewhere(et, b, ValueListPut(et, b, v).value)
  {
    if et.bitLength > 0 {
      FieldSpills(et, c, v);
    } else {
      WordSpills(et, c, v);
    }
  }

  lemma FieldSpills(et: EventType, c: seq<byte>, v: Value)
    requires et.codec.ValueList? && !StaysInside(et, v) && ValueListPut(et, c, v).Done? && et.bitLength > 0
    ensures exists b: seq<byte> ::
              |b| == |c| && ValueListPut(et, b, v).Done? && !AgreeElsewhere(et, b, ValueListPut(et, b, v).value)
  {
    hide SetField, Bit;
    var p, w, d := et.bitPosition % 8, et.bitLength, ValueListNumber(v).value;
    FieldFrame(p, w, d);
    var x: byte :| !FieldAlone(x, p, w, d);
    var k: nat :| k < 8 && !(p <= k < p + w) && Bit(SetField(x, p, w, d), k) != Bit(x, k);
    var pos: nat := et.bitPosition / 8;
    var b := c[pos := x];
    assert ValueListPut(et, b, v) == Done(b[pos := SetField(x, p, w, d)]);
    assert !Owns(et, pos, k);
    assert !AgreeElsewhere(et, b, ValueListPut(et, b, v).value);
  }

  lemma WordSpills(et: EventType, c: seq<byte>, v: Value)
    requires et.codec.ValueList? && !StaysInside(et, v) && ValueListPut(et, c, v).Done? && et.bitLength == 0
    ensures exists b: seq<byte> ::
              |b| == |c| && ValueListPut(et, b, v).Done? && !AgreeElsewhere(et, b, ValueListPut(et, b, v).value)
  {
    hide AgreeElsewhere;
    var d := ValueListNumber(v).value;
    var j: nat := if et.byteLength == 0 then et.bytePosition else 0;
    var e: byte := if et.byteLength == 0 then d % 0x100 else d / 0x100 % 0x100;
    var b := c[j := if e == 0 then 1 else 0];
    var b' := ValueListPut(et, b, v).value;
    assert b'[j] == e;
    ByteSpills(et, b, b', j);
  }

  lemma DivMulFrame(et: EventType, b: seq<byte>, v: Value)
    requires et.codec.DivMulOffset? && et.factor != 0.0 && StaysInside(et, v) && DivMulEncode(et, b, v).Done?
    ensures AgreeElsewhere(et, b, DivMulEncode(et, b, v).value)
  {
    var raw := RawOf(et, Number(v).value);
    var pos := et.bytePosition as int;
    var c := DivMulPut(et, b, raw);
    if Nibble(et) {
      NibbleFrame(b[pos], raw % 0x100);
    } else {
      forall j | 0 <= j < |b| && !(pos <= j < pos + et.byteLength)
        ensures c[j] == b[j]
      {
      }
    }
  }

  lemma NibbleFrame(x: byte, d: byte)
    ensures forall k: nat :: k < 4 ==> Bit(HighNibble(x, d), k) == Bit(x, k)
    ensures d < 0x10 ==> forall k: nat :: 4 <= k < 8 ==> Bit(LowNibble(x, d), k) == Bit(x, k)
    ensures d >= 0x10 ==> exists k: nat :: 4 <= k < 8 && Bit(LowNibble(0, d), k) != Bit(0, k)
  {
    assert Pow2(4) == 0x10;
    forall k: nat | k < 8
      ensures k < 4 ==> Bit(HighNibble(x, d), k) == Bit(x, k)
      ensures d < 0x10 && 4 <= k ==> Bit(LowNibble(x, d), k) == Bit(x, k)
    {
      HighNibbleBits(x, d, k);
      LowNibbleBits(x, d, k);
      LowBits(d, 4, k);
      LowBound(d, 4);
    }
    if d >= 0x10 && forall k: nat :: 4 <= k < 8 ==> !Bit(d, k) {
      forall k: nat | k < 8
        ensures Bit(d, k) == Bit(Low(d, 4), k)
      {
        LowBits(d, 4, k);
      }
      LowBound(d, 4);
      Pow2Of8();
      SameBits(d, Low(d, 4), 8);
    }
    if d >= 0x10 {
      var k: nat :| 4 <= k < 8 && Bit(d, k);
      LowNibbleBits(0, d, k);
      ZeroBits(k);
    }
  }

  lemma DivMulSpills(et: EventType, c: seq<byte>, v: Value)
    requires et.codec.DivMulOffset? && et.factor != 0.0 && !StaysInside(et, v) && DivMulEncode(et, c, v).Done?
    ensures exists b: seq<byte> ::
              |b| == |c| && DivMulEncode(et, b, v).Done? && !AgreeElsewhere(et, b, DivMulEncode(et, b, v).value)
  {
    var pos: nat := et.bytePosition;
    var d := RawOf(et, Number(v).value) % 0x100;
    NibbleFrame(0, d);
    var k: nat :| 4 <= k < 8 && Bit(LowNibble(0, d), k) != Bit(0, k);
    var b := c[pos := 0];
    assert DivMulEncode(et, b, v) == Done(b[pos := LowNibble(0, d)]);
    assert !Owns(et, pos, k);
    assert !AgreeElsewhere(et, b, DivMulEncode(et, b, v).value);
  }

  /** A value list field reads back the bits of the number that fit; a byte or word the number's low bits. */
  lemma ValueListReadsBack(et: EventType, b: seq<byte>, v: Value)
    requires ValueListPut(et, b, v).Done?
    requires et.bitLength > 0 || et.byteLength == 1 || et.bytePosition < 0xff
    ensures ValueListNumber(v).Done?
    ensures var d := ValueListNumber(v).value;
            ValueListGet(et, ValueListPut(et, b, v).value) ==
            Done(if et.bitLength > 0 then Low(d, Min(et.bitLength, 8 - et.bitPosition % 8))
                 else if et.byteLength == 1 then d % 0x100
                 else d)
  {
    hide GetField, SetField, Low;
    if et.bitLength > 0 {
      var pos, d := et.bitPosition / 8, ValueListNumber(v).value;
      FieldReadsBack(b[pos], et.bitPosition % 8, et.bitLength, d);
    } else if et.byteLength != 1 {
      WordReadsBack(ValueListNumber(v).value);
    }
  }

  lemma WordReadsBack(d: nat)
    requires d < 0x1_0000
    ensures (d / 0x100 % 0x100) * 0x100 + d % 0x100 == d
  {
  }

  // ------------------------------------------------- value lists in plain numbers

  /** How many numbers the place of a value list tells apart. */
  function Width(et: EventType): nat {
    if et.bitLength > 0 then Pow2(Min(et.bitLength, 8 - et.bitPosition % 8))
    else if et.byteLength == 1 then 0x100
    else 0x1_0000
  }

  lemma {:induction false} WidthDivides(n: nat) returns (k: nat)
    requires n <= 8
    ensures k > 0 && k * Pow2(n) == 0x1_0000
    decreases 8 - n
  {
    if n == 8 {
      Pow2Of8();
      k := 0x100;
    } else {
      k := WidthDivides(n + 1);
      k := k * 2;
    }
  }

  lemma WordMod(x: int, n: nat)
    requires n <= 8
    ensures x % 0x1_0000 % Pow2(n) == x % Pow2(n)
  {
    var k := WidthDivides(n);
    ModOfMultiple(x, k, Pow2(n));
  }

  /** Whatever integer is written, its remainder modulo the width is what reads back. */
  lemma IntegerReadsBack(et: EventType, b: seq<byte>, n: int)
    requires ValueListPut(et, b, Int(n)).Done?
    requires et.bitLength > 0 || et.byteLength == 1 || et.bytePosition < 0xff
    ensures Width(et) > 0 && ValueListGet(et, ValueListPut(et, b, Int(n)).value) == Done(n % Width(et))
  {
    ValueListReadsBack(et, b, Int(n));
    if et.bitLength > 0 {
      var w := Min(et.bitLength, 8 - et.bitPosition % 8);
      LowMod(n % 0x1_0000, w);
      WordMod(n, w);
    } else if et.byteLength == 1 {
      Pow2Of8();
      WordMod(n, 8);
    }
  }

  /** What a value list decodes, in arithmetic on the bytes. */
  lemma ValueListValue(et: EventType, b: seq<byte>)
    requires ValueListGet(et, b).Done?
    ensures var v := ValueListGet(et, b).value;
            if et.bitLength > 0 then
              et.bitPosition / 8 < |b| && v == b[et.bitPosition / 8] / Pow2(et.bitPosition % 8) % Pow2(et.bitLength)
            else if et.byteLength == 1 then et.bytePosition < |b| && v == b[et.bytePosition]
            else et.bytePosition < 0xff ==>
                   et.bytePosition as int + 2 <= |b| && v == LeValue(b[et.bytePosition..et.bytePosition as int + 2])
  {
    if et.bitLength > 0 {
      FieldIs(b[et.bitPosition / 8], et.bitPosition % 8, et.bitLength);
    } else if et.byteLength != 1 && et.bytePosition < 0xff {
      LePairs(b[et.bytePosition..et.bytePosition as int + 2]);
    }
  }

  /** An integer and the same number as a float are written alike; of any other float the integer part is written. */
  lemma FloatIsWritten(et: EventType, b: seq<byte>, r: real, n: int)
    requires (0 <= n && n as real <= r < n as real + 1.0) || (n <= 0 && n as real - 1.0 < r <= n as real)
    ensures ValueListPut(et, b, Real(r)) == ValueListPut(et, b, Int(n))
  {
    TruncTowardZero(r);
    assert Trunc(r) == n;
    hide Trunc;
  }

  // --------------------------------------------- scaled numbers in plain numbers

  /** The two parameters whose most significant byte comes first; other numbers are little-endian. */
  predicate Swapped(et: EventType) {
    et.byteLength == 2 && (et.parameter == SIntHighByteFirst || et.parameter == IntHighByteFirst)
  }

  /**
   * What the raw number is: the bytes of the event, least significant first - most significant first for
   * the two parameters that say so -, in two's complement for the signed parameters.
   */
  lemma RawValue(et: EventType, b: seq<byte>)
    requires Convertible(et, b)
    requires !(et.byteLength == 1 && et.bitLength == 4 && et.parameter != SByte && et.parameter != SInt)
    ensures DivMulGet(et, b).Done?
    ensures var c := b[et.bytePosition..et.bytePosition as int + et.byteLength];
            var word := if et.byteLength == 2 && (et.parameter == SIntHighByteFirst || et.parameter == IntHighByteFirst)
                        then [c[1], c[0]] else c;
            DivMulGet(et, b).value % Pow256(et.byteLength) == LeValue(word)
    ensures var v, m := DivMulGet(et, b).value, Pow256(et.byteLength) as int;
            if || (et.byteLength == 1 && (et.parameter == SByte || et.parameter == SInt))
               || (et.byteLength == 2 && (et.parameter == SInt || et.parameter == SIntHighByteFirst))
               || (et.byteLength == 4 && (et.parameter == SInt || et.parameter == SInt4))
            then -m <= 2 * v < m else 0 <= v < m
  {
    SmallPowers();
    match et.byteLength {
      case 1 => OneByteValue(et, b);
      case 2 => TwoBytesValue(et, b);
      case _ => MoreBytesValue(et, b);
    }
  }

  lemma OneByteValue(et: EventType, b: seq<byte>)
    requires Convertible(et, b) && et.byteLength == 1
    requires !(et.bitLength == 4 && et.parameter != SByte && et.parameter != SInt)
    ensures var x := LeValue(b[et.bytePosition..et.bytePosition as int + 1]);
            && x < 0x100
            && DivMulGet(et, b) == Done(if et.parameter == SByte || et.parameter == SInt then TwosComplement(x, 0x100) else x)
            && -0x100 <= 2 * TwosComplement(x, 0x100) < 0x100 && TwosComplement(x, 0x100) % 0x100 == x
  {
    var c := b[et.bytePosition..et.bytePosition as int + 1];
    LePairs(c);
    hide LeValue;
    TwosComplementIs(c[0], 0x100);
  }

  lemma TwoBytesValue(et: EventType, b: seq<byte>)
    requires Convertible(et, b) && et.byteLength == 2
    ensures var c := b[et.bytePosition..et.bytePosition as int + 2];
            var x := LeValue(if et.parameter == SIntHighByteFirst || et.parameter == IntHighByteFirst then [c[1], c[0]] else c);
            && x < 0x1_0000
            && DivMulGet(et, b) ==
               Done(if et.parameter == SInt || et.parameter == SIntHighByteFirst then TwosComplement(x, 0x1_0000) else x)
            && -0x1_0000 <= 2 * TwosComplement(x, 0x1_0000) < 0x1_0000 && TwosComplement(x, 0x1_0000) % 0x1_0000 == x
  {
    var c := b[et.bytePosition..et.bytePosition as int + 2];
    LePairs(c);
    LePairs([c[1], c[0]]);
    var x := LeValue(if et.parameter == SIntHighByteFirst || et.parameter == IntHighByteFirst then [c[1], c[0]] else c);
    hide LeValue;
    TwosComplementIs(x, 0x1_0000);
  }

  lemma MoreBytesValue(et: EventType, b: seq<byte>)
    requires Convertible(et, b) && 3 <= et.byteLength <= 4
    ensures var x := LeValue(b[et.bytePosition..et.bytePosition as int + et.byteLength]);
            && x < (if et.byteLength == 3 then 0x100_0000 else 0x1_0000_0000)
            && DivMulGet(et, b) ==
               Done(if et.byteLength == 4 && (et.parameter == SInt || et.parameter == SInt4) then TwosComplement(x, 0x1_0000_0000) else x)
            && (et.byteLength == 4 ==>
                  -0x1_0000_0000 <= 2 * TwosComplement(x, 0x1_0000_0000) < 0x1_0000_0000 &&
                  TwosComplement(x, 0x1_0000_0000) % 0x1_0000_0000 == x)
  {
    var c := b[et.bytePosition..et.bytePosition as int + et.byteLength];
    LePairs(c);
    var x := LeValue(c);
    hide LeValue;
    if et.byteLength == 4 {
      TwosComplementIs(x, 0x1_0000_0000);
    }
  }

  lemma TwosComplementIs(x: nat, m: nat)
    requires m in {0x100, 0x1_0000, 0x1_0000_0000} && x < m
    ensures -(m as int) <= 2 * TwosComplement(x, m) < m && TwosComplement(x, m) % m == x
  {
  }

  /** A nibble is the high half of its byte at bit position 0, the low half at 4, and elsewhere the whole byte. */
  lemma NibbleValue(et: EventType, b: seq<byte>)
    requires Convertible(et, b)
    requires et.byteLength == 1 && et.bitLength == 4 && et.parameter != SByte && et.parameter != SInt
    ensures DivMulGet(et, b) ==
            Done(if et.bitPosition == 0 then b[et.bytePosition] / 16
                 else if et.bitPosition == 4 then b[et.bytePosition] % 16
                 else b[et.bytePosition])
  {
    var x := b[et.bytePosition];
    assert Pow2(4) == 16 && Ones(4) == 0xf;
    ShrIs(x, 4);
    AndOnes(x, 4);
    LowMod(x, 4);
  }

  /** Whatever raw number is written, the bytes spell its remainder, in the same order. */
  lemma RawPlaced(et: EventType, b: seq<byte>, raw: int)
    requires Convertible(et, b) && !Nibble(et)
    ensures var c := DivMulPut(et, b, raw)[et.bytePosition..et.bytePosition as int + et.byteLength];
            var word := if et.byteLength == 2 && (et.parameter == SIntHighByteFirst || et.parameter == IntHighByteFirst)
                        then [c[1], c[0]] else c;
            LeValue(word) == raw % Pow256(et.byteLength)
  {
    var c := DivMulPut(et, b, raw)[et.bytePosition..et.bytePosition as int + et.byteLength];
    assert c == Digits(et, raw);
    var word := if Swapped(et) then [c[1], c[0]] else c;
    SmallPowers();
    LePairs(word);
    DigitsSpell(raw);
    hide LeValue, Pow256;
  }

  /** A value that raw * factor + offset spells exactly, within the borders, is written as that raw number and read exactly. */
  lemma ScaledExact(et: EventType, b: seq<byte>, raw: int, x: real)
    requires et.factor != 0.0 && Convertible(et, b) && Placed(et) && InRange(et, raw)
    requires x == raw as real * et.factor + et.offset
    requires et.lower == et.upper || et.lower <= x <= et.upper
    ensures DivMulEncode(et, b, Real(x)) == Done(DivMulPut(et, b, raw))
    ensures DivMulDecode(et, DivMulPut(et, b, raw)) == Done(x)
  {
    assert x == Physical(et, raw);
    hide DivMulGet, DivMulPut, Trunc, Clamp, InRange, Placed, Physical;
    ClampInside(et, x);
    Rescale(et, raw);
    RawReadsBack(et, b, raw);
  }

  /** Every value is written within one step of itself, or of the border it lies beyond. */
  lemma WrittenInside(et: EventType, b: seq<byte>, x: real)
    requires et.factor != 0.0 && Convertible(et, b) && Placed(et) && InRange(et, RawOf(et, x))
    ensures DivMulEncode(et, b, Real(x)).Done? && DivMulDecode(et, DivMulEncode(et, b, Real(x)).value).Done?
    ensures var y, step := DivMulDecode(et, DivMulEncode(et, b, Real(x)).value).value, if et.factor < 0.0 then -et.factor else et.factor;
            && (et.lower == et.upper || et.lower <= x <= et.upper ==> x - step < y < x + step)
            && (et.lower < et.upper && x < et.lower ==> et.lower - step < y < et.lower + step)
            && (et.lower < et.upper && x > et.upper ==> et.upper - step < y < et.upper + step)
            && (et.lower < et.upper ==> et.lower - step < y < et.upper + step)
  {
    hide DivMulGet, DivMulPut, Trunc, InRange, Placed, RawOf;
    ScaledClose(et, b, x);
    NearBoth(DivMulDecode(et, DivMulEncode(et, b, Real(x)).value).value - Clamp(et, x), et.factor);
    hide DivMulEncode, DivMulDecode;
  }

  lemma NearBoth(d: real, f: real)
    requires Abs(d) < Abs(f)
    ensures if f < 0.0 then f < d < -f else -f < d < f
  {
  }
}
