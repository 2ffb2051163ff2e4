/** The codec of an event type: one encoder and one decoder for all kinds. */
module Codecs {
  import opened Bytes
  import opened Bits
  import opened Events
  import Codec
  import Calendar

  datatype Data =
    | Number(n: nat)
    | Scaled(r: real)
    | Elapsed(secs: nat)
    | Date(d: Calendar.Decoded)
    | Switching(w: seq<seq<Calendar.OnOff>>)
    | History(h: seq<Calendar.ErrEntry>)
    | Raw(b: seq<byte>)

  /** What the description check guarantees of a scaled number. */
  predicate Sane(et: EventType) {
    et.codec.DivMulOffset? ==> et.factor != 0.0
  }

  /** The encoded buffer. The indices of the code wrap only in buffers of more than 255 bytes, which are not modelled. */
  function Encode(et: EventType, b: seq<byte>, v: Value): (r: Coded<seq<byte>>)
    requires Sane(et)
    ensures r.Done? ==> |r.value| == |b|
  {
    var pos := et.bytePosition as int;
    match et.codec
    case ValueList => Codec.ValueListPut(et, b, v)
    case DivMulOffset => Codec.DivMulEncode(et, b, v)
    case Sec2Duration =>
      if |b| < pos + et.byteLength || !v.Seconds? then Rejected
      else Done(Codec.Splice(b, pos, LeBytes(v.secs, et.byteLength)))
    case DateTimeBCD =>
      if |b| < pos + 8 then Rejected
      else if !v.Moment? then Panicked
      else Done(Codec.Splice(b, pos, Calendar.MomentBytes(v.t)))
    case DateBCD =>
      if |b| < pos + 4 then Rejected
      else if !v.Moment? then Panicked
      else Done(Codec.Splice(b, pos, Calendar.DateBytes(v.t, |b| - pos)))
    case _ => Done(b)
  }

  function Decode(et: EventType, b: seq<byte>): Coded<Data> {
    var pos := et.bytePosition as int;
    match et.codec
    case ValueList =>
      (match Codec.ValueListGet(et, b) case Done(n) => Done(Number(n)) case Rejected => Rejected case Panicked => Panicked)
    case DivMulOffset =>
      (match Codec.DivMulDecode(et, b) case Done(r) => Done(Scaled(r)) case Rejected => Rejected case Panicked => Panicked)
    case Sec2Duration =>
      if |b| < pos + et.byteLength then Rejected
      else Done(Elapsed(LeValue(b[pos..pos + et.byteLength]) % Calendar.WORD))
    case DateTimeBCD =>
      (match Calendar.DateDecode(et, b) case Done(d) => Done(Date(d)) case Rejected => Rejected case Panicked => Panicked)
    case DateBCD =>
      (match Calendar.DateDecode(et, b) case Done(d) => Done(Date(d)) case Rejected => Rejected case Panicked => Panicked)
    case MappingTime53 =>
      (match Calendar.Times(et, b) case Done(w) => Done(Switching(w)) case Rejected => Rejected case Panicked => Panicked)
    case MappingErrors =>
      (match Calendar.Errors(b) case Done(h) => Done(History(h)) case Rejected => Rejected case Panicked => Panicked)
    case _ => Done(Raw(b))
  }

  /** The buffer after a panic. */
  function Torn(et: EventType, b: seq<byte>, v: Value): seq<byte> {
    if et.codec.ValueList? then Codec.ValueListTorn(et, b, v) else b
  }

  method EncodeInPlace(et: EventType, b: array<byte>, v: Value) returns (r: Coded<()>)
    requires Sane(et) && b.Length <= 0xff
    modifies b
    ensures match Encode(et, old(b[..]), v)
            case Done(s) => r == Done(()) && b[..] == s
            case Rejected => r == Rejected && b[..] == old(b[..])
            case Panicked => r == Panicked && b[..] == Torn(et, old(b[..]), v)
  {
    hide Codec.ValueListPut, Codec.ValueListTorn, Codec.DivMulEncode, Codec.Splice, LeBytes, Calendar.MomentBytes, Calendar.DateBytes;
    var pos: nat := et.bytePosition;
    match et.codec {
      case ValueList => r := Codec.ValueListEncode(et, b, v);
      case DivMulOffset => r := Codec.DivMulEncodeInPlace(et, b, v);
      case Sec2Duration =>
        if b.Length < pos + et.byteLength || !v.Seconds? {
          return Rejected;
        }
        Calendar.EncodeSeconds(b, pos, et.byteLength, v.secs);
        r := Done(());
      case DateTimeBCD =>
        if b.Length < pos + 8 {
          return Rejected;
        }
        if !v.Moment? {
          return Panicked;
        }
        var _ := Calendar.DateTimeEncode(et, b, v.t);
        r := Done(());
      case DateBCD =>
        if b.Length < pos + 4 {
          return Rejected;
        }
        if !v.Moment? {
          return Panicked;
        }
        var _ := Calendar.DateOnlyEncode(et, b, v.t);
        r := Done(());
      case _ => r := Done(());
    }
  }

  /** The bits of the buffer that the description assigns to the event. */
  predicate OwnsBit(et: EventType, j: nat, k: nat) {
    match et.codec
    case Sec2Duration => et.bytePosition <= j < et.bytePosition as int + et.byteLength
    case DateTimeBCD => et.bytePosition <= j < et.bytePosition as int + et.byteLength
    case DateBCD => et.bytePosition <= j < et.bytePosition as int + et.byteLength
    case _ => Codec.Owns(et, j, k)
  }

  ghost predicate SameElsewhere(et: EventType, b: seq<byte>, c: seq<byte>) {
    && |b| == |c|
    && forall j: nat, k: nat :: j < |b| && k < 8 && !OwnsBit(et, j, k) ==> Bit(c[j], k) == Bit(b[j], k)
  }

  /** In a buffer of this size the encoder writes no further than the description's bytes and bits. */
  predicate StaysInside(et: EventType, v: Value, size: nat) {
    match et.codec
    case DateTimeBCD => et.byteLength >= 8
    case DateBCD => et.byteLength >= 8 || size <= et.bytePosition as int + et.byteLength
    case _ => Codec.StaysInside(et, v)
  }

  /** Encoding leaves every bit of the rest as it was. */
  lemma EncodeFrame(et: EventType, b: seq<byte>, v: Value)
    requires Sane(et) && |b| <= 0xff && StaysInside(et, v, |b|) && Encode(et, b, v).Done?
    ensures SameElsewhere(et, b, Encode(et, b, v).value)
  {
    match et.codec {
      case ValueList =>
        Codec.ValueListFrame(et, b, v);
        assert Codec.AgreeElsewhere(et, b, Encode(et, b, v).value);
      case DivMulOffset =>
        Codec.DivMulFrame(et, b, v);
        assert Codec.AgreeElsewhere(et, b, Encode(et, b, v).value);
      case Sec2Duration => Calendar.SpliceOutside(b, et.bytePosition, LeBytes(v.secs, et.byteLength), et.byteLength);
      case DateTimeBCD => Calendar.SpliceOutside(b, et.bytePosition, Calendar.MomentBytes(v.t), et.byteLength);
      case DateBCD =>
        Calendar.SpliceOutside(b, et.bytePosition, Calendar.DateBytes(v.t, |b| - et.bytePosition), et.byteLength);
      case _ =>
    }
  }

  /** Otherwise some buffer of the same size shows it. */
  lemma EncodeSpills(et: EventType, c: seq<byte>, v: Value)
    requires Sane(et) && |c| <= 0xff && !StaysInside(et, v, |c|) && Encode(et, c, v).Done?
    ensures exists b: seq<byte> :: |b| == |c| && Encode(et, b, v).Done? && !SameElsewhere(et, b, Encode(et, b, v).value)
  {
    hide Codec.ValueListPut, Codec.DivMulEncode, Calendar.DateBytes, Calendar.MomentBytes, Bit, Codec.Splice;
    match et.codec {
      case ValueList =>
        Codec.ValueListSpills(et, c, v);
        var b: seq<byte> :| |b| == |c| && Codec.ValueListPut(et, b, v).Done? &&
                            !Codec.AgreeElsewhere(et, b, Codec.ValueListPut(et, b, v).value);
        assert Encode(et, b, v) == Codec.ValueListPut(et, b, v);
      case DivMulOffset =>
        Codec.DivMulSpills(et, c, v);
        var b: seq<byte> :| |b| == |c| && Codec.DivMulEncode(et, b, v).Done? &&
                            !Codec.AgreeElsewhere(et, b, Codec.DivMulEncode(et, b, v).value);
        assert Encode(et, b, v) == Codec.DivMulEncode(et, b, v);
      case DateTimeBCD => SpliceSpills(et, c, v, Calendar.MomentBytes(v.t));
      case DateBCD => SpliceSpills(et, c, v, Calendar.DateBytes(v.t, |c| - et.bytePosition));
    }
  }

  lemma SpliceSpills(et: EventType, c: seq<byte>, v: Value, s: seq<byte>)
    requires Sane(et) && |c| <= 0xff && Encode(et, c, v).Done?
    requires (et.codec.DateTimeBCD? && s == Calendar.MomentBytes(v.t)) ||
             (et.codec.DateBCD? && s == Calendar.DateBytes(v.t, |c| - et.bytePosition))
    requires |s| > et.byteLength
    ensures exists b: seq<byte> :: |b| == |c| && Encode(et, b, v).Done? && !SameElsewhere(et, b, Encode(et, b, v).value)
  {
    hide Calendar.DateBytes, Calendar.MomentBytes, Bit;
    var n: nat := et.byteLength;
    var j: nat := et.bytePosition as int + n;
    var b := c[j := if s[n] == 0 then 1 else 0];
    assert Encode(et, b, v) == Done(Codec.Splice(b, et.bytePosition, s));
    Codec.DifferingBit(b[j], s[n]);
    assert Codec.Splice(b, et.bytePosition, s)[j] == s[n];
    assert !SameElsewhere(et, b, Encode(et, b, v).value);
  }

  /**
   * The frame of all codecs: in the buffers of one size the bits that the description does not assign to
   * the event survive, whatever they are, exactly when the encoder stays inside.
   */
  lemma FrameIff(et: EventType, v: Value, size: nat)
    requires Sane(et) && size <= 0xff
    requires exists c: seq<byte> :: |c| == size && Encode(et, c, v).Done?
    ensures StaysInside(et, v, size) <==>
              forall b: seq<byte> :: |b| == size && Encode(et, b, v).Done? ==> SameElsewhere(et, b, Encode(et, b, v).value)
  {
    hide Encode, StaysInside, SameElsewhere;
    if StaysInside(et, v, size) {
      forall b: seq<byte> | |b| == size && Encode(et, b, v).Done?
        ensures SameElsewhere(et, b, Encode(et, b, v).value)
      {
        EncodeFrame(et, b, v);
      }
    } else {
      var c: seq<byte> :| |c| == size && Encode(et, c, v).Done?;
      EncodeSpills(et, c, v);
    }
  }

  /** The value fits the place it is written to, and the place is one both directions agree on. */
  predicate Representable(et: EventType, v: Value) {
    match et.codec
    case ValueList =>
      (v.Int? || v.Real?) && (et.bitLength > 0 || et.byteLength == 1 || et.bytePosition < 0xff)
    case DivMulOffset =>
      et.factor != 0.0 && Codec.Placed(et) && Codec.Number(v).Done? && Codec.InRange(et, Codec.RawOf(et, Codec.Number(v).value))
    case Sec2Duration => v.Seconds? && et.byteLength <= 8 && v.secs < Pow256(et.byteLength)
    case DateTimeBCD => v.Moment? && Calendar.Proper(v.t) && et.byteLength == 8
    case DateBCD => v.Moment? && Calendar.Proper(v.t) && 4 <= et.byteLength <= 8
    case _ => false
  }

  /** What a representable value looks like after a round trip. */
  function ReadBack(et: EventType, v: Value): Data
    requires Representable(et, v)
  {
    match et.codec
    case ValueList => Number((match v case Int(n) => n case Real(x) => Codec.Trunc(x)) % Codec.Width(et))
    case DivMulOffset => Scaled(Codec.Physical(et, Codec.RawOf(et, Codec.Number(v).value)))
    case Sec2Duration => Elapsed(v.secs)
    case DateTimeBCD => Date(Calendar.Decoded(v.t.year, v.t.month, v.t.day, v.t.hour, v.t.minute, v.t.second))
    case DateBCD => Date(Calendar.Decoded(v.t.year, v.t.month, v.t.day, 0, 0, 0))
    case _ => Raw([])
  }

  lemma ReadsBack(et: EventType, b: seq<byte>, v: Value)
    requires Representable(et, v) && |b| == et.blockLength >= et.bytePosition as int + et.byteLength
    requires Encode(et, b, v).Done?
    ensures Decode(et, Encode(et, b, v).value) == Done(ReadBack(et, v))
  {
    hide Codec.ValueListPut, Codec.ValueListGet, Codec.DivMulPut, Codec.DivMulGet, Codec.Trunc, Codec.Clamp, Codec.InRange;
    hide Codec.Splice, LeBytes, LeValue, Calendar.DateDecode, Calendar.MomentBytes, Calendar.DateBytes, Calendar.Times, Calendar.Restored;
    match et.codec {
      case ValueList => ValueListRoundTrip(et, b, v);
      case DivMulOffset => ScaledReadsBack(et, b, v);
      case Sec2Duration => SecondsRoundTrip(et, b, v.secs);
      case DateTimeBCD =>
        Calendar.DateTimeReadsBack(et, b, v.t);
        Calendar.ProperIsRestored(v.t);
      case DateBCD =>
        Calendar.DateReadsBack(et, b, v.t);
        Calendar.ProperIsRestored(v.t);
    }
  }

  lemma ValueListRoundTrip(et: EventType, b: seq<byte>, v: Value)
    requires et.codec.ValueList? && Representable(et, v)
    requires Codec.ValueListPut(et, b, v).Done?
    ensures Decode(et, Codec.ValueListPut(et, b, v).value) == Done(ReadBack(et, v))
  {
    hide Codec.ValueListPut, Codec.ValueListGet, Codec.Trunc, Codec.Width;
    var n := match v case Int(n) => n case Real(x) => Codec.Trunc(x);
    if v.Real? {
      Codec.TruncTowardZero(v.r);
      Codec.FloatIsWritten(et, b, v.r, n);
    }
    Codec.IntegerReadsBack(et, b, n);
  }

  /**
   * A value list reads back the integer that was written, if the place tells that many numbers apart, and
   * its remainder otherwise.
   */
  lemma IntegerReadsBack(et: EventType, b: seq<byte>, n: int)
    requires et.codec.ValueList? && Encode(et, b, Int(n)).Done?
    requires et.bitLength > 0 || et.byteLength == 1 || et.bytePosition < 0xff
    ensures var m := if et.bitLength > 0 then Pow2(Min(et.bitLength, 8 - et.bitPosition % 8))
                     else if et.byteLength == 1 then 0x100 else 0x1_0000;
            && m > 0 && Decode(et, Encode(et, b, Int(n)).value) == Done(Number(n % m))
            && (0 <= n < m ==> Decode(et, Encode(et, b, Int(n)).value) == Done(Number(n)))
  {
    hide Codec.ValueListPut, Codec.ValueListGet, Pow2, Decode, Encode;
    IntegerIsDecoded(et, b, n);
    var m := Codec.Width(et);
    if 0 <= n < m {
      ModUnique(0, m, n, n);
    }
  }

  lemma IntegerIsDecoded(et: EventType, b: seq<byte>, n: int)
    requires et.codec.ValueList? && Encode(et, b, Int(n)).Done?
    requires et.bitLength > 0 || et.byteLength == 1 || et.bytePosition < 0xff
    ensures Codec.Width(et) > 0 && Decode(et, Encode(et, b, Int(n)).value) == Done(Number(n % Codec.Width(et)))
  {
    hide Codec.ValueListPut, Codec.ValueListGet, Codec.Width;
    Codec.IntegerReadsBack(et, b, n);
  }

  /** An integer and the same number as a float are encoded alike, whatever the codec. */
  lemma IntegerIsFloat(et: EventType, b: seq<byte>, n: int)
    requires Sane(et)
    ensures Encode(et, b, Int(n)) == Encode(et, b, Real(n as real))
  {
    hide Codec.ValueListPut, Codec.DivMulPut, Codec.RawOf;
    Codec.FloatIsWritten(et, b, n as real, n);
  }

  lemma ScaledRoundTrip(et: EventType, b: seq<byte>, v: Value)
    requires et.codec.DivMulOffset? && Representable(et, v) && Codec.DivMulEncode(et, b, v).Done?
    ensures Codec.DivMulDecode(et, Codec.DivMulEncode(et, b, v).value) ==
            Done(Codec.Physical(et, Codec.RawOf(et, Codec.Number(v).value)))
  {
    hide Codec.DivMulPut, Codec.DivMulGet, Codec.RawOf, Codec.Physical, Codec.InRange, Codec.Convertible, Codec.Placed;
    Codec.RawReadsBack(et, b, Codec.RawOf(et, Codec.Number(v).value));
  }

  lemma ScaledReadsBack(et: EventType, b: seq<byte>, v: Value)
    requires et.codec.DivMulOffset? && Representable(et, v) && |b| == et.blockLength && Encode(et, b, v).Done?
    ensures Decode(et, Encode(et, b, v).value) == Done(ReadBack(et, v))
  {
    hide Codec.DivMulDecode, Codec.RawOf, Codec.InRange, Codec.Placed, Codec.Number, Codec.Physical;
    ScaledRoundTrip(et, b, v);
  }

  lemma SecondsRoundTrip(et: EventType, b: seq<byte>, secs: nat)
    requires et.byteLength <= 8 && secs < Pow256(et.byteLength) && et.bytePosition as int + et.byteLength <= |b|
    ensures var pos := et.bytePosition as int;
            LeValue(Codec.Splice(b, pos, LeBytes(secs, et.byteLength))[pos..pos + et.byteLength]) % Calendar.WORD == secs
  {
    var pos := et.bytePosition as int;
    Calendar.SpliceReadsBack(b, pos, LeBytes(secs, et.byteLength), et.byteLength);
    assert LeBytes(secs, et.byteLength)[..et.byteLength] == LeBytes(secs, et.byteLength);
    LeValueOfBytes(secs, et.byteLength);
    Calendar.ShortValueFits(LeBytes(secs, et.byteLength));
  }

  /** An encoded date lies in the event's bytes field by field, two decimal digits each, the weekday behind it. */
  lemma DateLiesInDigits(et: EventType, b: seq<byte>, t: Civil)
    requires Calendar.InCalendar(t) && (et.codec.DateTimeBCD? || et.codec.DateBCD?) && Encode(et, b, Moment(t)).Done?
    ensures var c := Encode(et, b, Moment(t)).value;
            var n := if et.codec.DateTimeBCD? then 8 else Min(|b| - et.bytePosition, 8);
            var fields := [t.year / 100, t.year % 100, t.month, t.day, if t.weekday == 0 then 7 else t.weekday]
                          + if et.codec.DateTimeBCD? then [t.hour, t.minute, t.second] else [0, 0, 0];
            && n <= 8 && et.bytePosition as int + n <= |c| == |b|
            && forall k :: 0 <= k < n ==>
                 c[et.bytePosition as int + k] / 16 == fields[k] / 10 && c[et.bytePosition as int + k] % 16 == fields[k] % 10
  {
    hide Calendar.MomentBytes, Calendar.DateBytes;
    if et.codec.DateTimeBCD? {
      Calendar.MomentInDigits(t);
    } else {
      Calendar.DateInDigits(t, |b| - et.bytePosition);
    }
  }

  // -------------------------------------------------------------- the error cases

  /** Which values and buffers the encoders turn down, and where they index out of range. */
  lemma EncodeFailsIff(et: EventType, b: seq<byte>, v: Value)
    requires Sane(et)
    ensures var pos, last := et.bytePosition as int, (et.bytePosition as int + 1) % 0x100;
            match et.codec
            case ValueList =>
              && (Encode(et, b, v).Rejected? <==> et.bitLength > 8 || !(v.Int? || v.Real?))
              && (Encode(et, b, v).Panicked? <==>
                  et.bitLength <= 8 && (v.Int? || v.Real?) &&
                  (if et.bitLength > 0 then et.bitPosition / 8 >= |b|
                   else pos >= |b| || (et.byteLength != 1 && last >= |b|)))
            case DivMulOffset =>
              && (Encode(et, b, v).Rejected? <==>
                  || |b| < pos + et.byteLength || et.byteLength == 0 || et.byteLength > 4
                  || (et.bitLength > 0 && (et.byteLength != 1 || et.bitLength != 4)) || !(v.Int? || v.Real?))
              && !Encode(et, b, v).Panicked?
            case Sec2Duration =>
              (Encode(et, b, v).Rejected? <==> |b| < pos + et.byteLength || !v.Seconds?) && !Encode(et, b, v).Panicked?
            case DateTimeBCD =>
              (Encode(et, b, v).Rejected? <==> |b| < pos + 8) && (Encode(et, b, v).Panicked? <==> |b| >= pos + 8 && !v.Moment?)
            case DateBCD =>
              (Encode(et, b, v).Rejected? <==> |b| < pos + 4) && (Encode(et, b, v).Panicked? <==> |b| >= pos + 4 && !v.Moment?)
            case _ => Encode(et, b, v) == Done(b)
  {
    hide Codec.SetField, Codec.DivMulPut, Codec.Trunc, Codec.Splice, Calendar.MomentBytes, Calendar.DateBytes, LeBytes;
  }

  /** The same for the decoders. */
  lemma DecodeFailsIff(et: EventType, b: seq<byte>)
    ensures var pos, last := et.bytePosition as int, (et.bytePosition as int + 1) % 0x100;
            var hi := (et.bytePosition as int + et.byteLength) % 0x100;
            match et.codec
            case ValueList =>
              && (Decode(et, b).Rejected? <==> et.bitLength > 8)
              && (Decode(et, b).Panicked? <==>
                  et.bitLength <= 8 &&
                  (if et.bitLength > 0 then et.bitPosition / 8 >= |b|
                   else pos >= |b| || (et.byteLength != 1 && last >= |b|)))
            case DivMulOffset =>
              && (Decode(et, b).Rejected? <==>
                  || |b| < pos + et.byteLength || et.byteLength == 0 || et.byteLength > 4
                  || (et.bitLength > 0 && (et.byteLength != 1 || et.bitLength != 4)))
              && !Decode(et, b).Panicked?
            case Sec2Duration => (Decode(et, b).Rejected? <==> |b| < pos + et.byteLength) && !Decode(et, b).Panicked?
            case MappingTime53 => Decode(et, b).Panicked? <==> et.blockFactor == 0 || et.blockFactor > et.blockLength
            case MappingErrors => !Decode(et, b).Rejected? && (Decode(et, b).Panicked? <==> 0 < |b| % 9 < 8)
            case MappingRaster152 => Decode(et, b) == Done(Raw(b))
            case Nop => Decode(et, b) == Done(Raw(b))
            case _ =>
              && (Decode(et, b).Panicked? <==> |b| >= et.blockLength as int && !(pos <= hi <= |b|))
              && (Decode(et, b).Rejected? <==> |b| < et.blockLength as int || (pos <= hi <= |b| && hi - pos < 4))
  {
    hide Codec.GetField, Codec.TwosComplement, LeValue, Calendar.Errors, Calendar.Switches, Calendar.Chunk, Calendar.Reaches,
      Calendar.FromBCD, Shr, And;
    if et.codec.MappingErrors? {
      Calendar.ErrorsAre(b);
    }
  }
}
