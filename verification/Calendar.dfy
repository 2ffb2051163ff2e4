/** Durations, BCD dates and weekly switching times. */
module Calendar {
  import opened Bytes
  import opened Bits
  import opened Events
  import opened Codec

  const WORD := 0x1_0000_0000_0000_0000   // 2^64, the range of `uint`
  const NANOSECONDS := 1_000_000_000

  // ------------------------------------------------------------------- durations

  lemma ShiftIn(h: nat, d: byte)
    ensures (0x100 * (h % WORD)) % WORD + d == (d + 0x100 * h) % WORD
  {
    DivMod256(d + 0x100 * h, 0x100_0000_0000_0000);
    DivMod256(0x100 * (h % WORD), 0x100_0000_0000_0000);
    assert (d + 0x100 * h) / 0x100 == h;
    assert (0x100 * (h % WORD)) / 0x100 == h % WORD;
    DivMod256(h, 0x100_0000_0000_0000);
    NestedMod(h);
  }

  lemma NestedMod(h: nat)
    ensures h % WORD % 0x100_0000_0000_0000 == h % 0x100_0000_0000_0000
  {
    var p := 0x100_0000_0000_0000;
    var r := h % WORD;
    DivDef(h, WORD);
    DivDef(r, p);
    Scale(0x100, h / WORD, p);
    ModUnique(0x100 * (h / WORD) + r / p, p, r % p, h);
  }

  /** The decoding loop, most significant byte first, in 64 bits. */
  method DecodeSeconds(b: seq<byte>, pos: nat, n: nat) returns (secs: nat)
    requires pos + n <= |b|
    ensures secs == LeValue(b[pos..pos + n]) % WORD
  {
    secs := 0;
    var i := n;
    while i > 0
      invariant 0 <= i <= n && secs == LeValue(b[pos + i..pos + n]) % WORD
    {
      i := i - 1;
      ShiftSecond(b, pos + i, pos + n);
      secs := (secs * 0x100) % WORD;
      secs := (secs + b[pos + i]) % WORD;
    }
  }

  /** Shifting in the byte before the ones already seen. */
  lemma ShiftSecond(b: seq<byte>, lo: nat, hi: nat)
    requires lo < hi <= |b|
    ensures ((LeValue(b[lo + 1..hi]) % WORD * 0x100) % WORD + b[lo]) % WORD == LeValue(b[lo..hi]) % WORD
  {
    var rest := b[lo + 1..hi];
    assert b[lo..hi][0] == b[lo] && b[lo..hi][1..] == rest;
    assert LeValue(b[lo..hi]) == b[lo] + 0x100 * LeValue(rest);
    hide LeValue;
    ShiftIn(LeValue(rest), b[lo]);
  }

  lemma SpliceNothing(b: seq<byte>, pos: nat)
    requires pos <= |b|
    ensures Splice(b, pos, []) == b
  {
  }

  lemma SpliceExtend(b: seq<byte>, pos: nat, s: seq<byte>, d: byte)
    requires pos + |s| < |b|
    ensures Splice(b, pos, s)[pos + |s| := d] == Splice(b, pos, s + [d])
  {
  }

  /** The encoding loop writes the base-256 digits in place. */
  method EncodeSeconds(b: array<byte>, pos: nat, n: nat, seconds: nat)
    requires pos + n <= b.Length
    modifies b
    ensures b[..] == Splice(old(b[..]), pos, LeBytes(seconds, n))
  {
    hide Splice;
    ghost var was := b[..];
    SpliceNothing(was, pos);
    var secs := seconds;
    var i := 0;
    ghost var written: seq<byte> := [];
    while i < n
      invariant 0 <= i <= n && |written| == i
      invariant b[..] == Splice(was, pos, written)
      invariant written + LeBytes(secs, n - i) == LeBytes(seconds, n)
    {
      SpliceExtend(was, pos, written, secs % 0x100);
      b[pos + i] := secs % 0x100;
      written := written + [secs % 0x100];
      assert LeBytes(secs, n - i) == [secs % 0x100] + LeBytes(secs / 0x100, n - i - 1);
      secs := secs / 0x100;
      i := i + 1;
    }
    assert written + [] == written;
  }

  /** Decoding what was encoded yields the seconds modulo 256^n, and other bytes are untouched. */
  lemma SecondsReadBack(b: seq<byte>, pos: nat, n: nat, secs: nat)
    requires pos + n <= |b|
    ensures var c := Splice(b, pos, LeBytes(secs, n));
            && LeValue(c[pos..pos + n]) == secs % Pow256(n)
            && (forall j :: 0 <= j < |b| && !(pos <= j < pos + n) ==> c[j] == b[j])
  {
    var c := Splice(b, pos, LeBytes(secs, n));
    assert c[pos..pos + n] == LeBytes(secs, n);
    LeBytesMod(secs, n);
    DivDef(secs, Pow256(n));
    LeValueOfBytes(secs % Pow256(n), n);
  }

  lemma ShortValueFits(s: seq<byte>)
    requires |s| <= 8
    ensures LeValue(s) % WORD == LeValue(s)
  {
    LeValueBound(s);
    PowersGrow(|s|, 8);
    WordIsPow();
    ModUnique(0, WORD, LeValue(s), LeValue(s));
  }

  /** Encoding what was decoded leaves the buffer as it is, if the number of bytes fits the word. */
  lemma SecondsWriteBack(b: seq<byte>, pos: nat, n: nat)
    requires pos + n <= |b| && n <= 8
    ensures Splice(b, pos, LeBytes(LeValue(b[pos..pos + n]) % WORD, n)) == b
  {
    var s := b[pos..pos + n];
    ShortValueFits(s);
    LeBytesOfValue(s);
    SpliceSlice(b, pos, n);
    hide *;
  }

  lemma SpliceSlice(b: seq<byte>, pos: nat, n: nat)
    requires pos + n <= |b|
    ensures Splice(b, pos, b[pos..pos + n]) == b
  {
  }

  lemma WordIsPow()
    ensures Pow256(8) == WORD && Pow256(4) == 0x1_0000_0000
  {
    assert Pow256(2) == 0x1_0000;
    assert Pow256(4) == 0x1_0000 * Pow256(2);
    assert Pow256(6) == 0x1_0000 * Pow256(4);
    assert Pow256(8) == 0x1_0000 * Pow256(6);
  }

  lemma {:induction false} PowersGrow(m: nat, n: nat)
    requires m <= n
    ensures Pow256(m) <= Pow256(n)
    decreases n
  {
    if m < n {
      PowersGrow(m, n - 1);
    }
  }

  /** `time.Duration(secs) * time.Second` stays inside `int64` for every buffer exactly up to four bytes. */
  lemma NanosecondsFit(n: nat)
    ensures n <= 4 <==> forall b: seq<byte> :: |b| == n ==> LeValue(b) % WORD * NANOSECONDS < WORD / 2
  {
    WordIsPow();
    if n <= 4 {
      forall b: seq<byte> | |b| == n
        ensures LeValue(b) % WORD * NANOSECONDS < WORD / 2
      {
        LeValueBound(b);
        PowersGrow(n, 4);
      }
    } else {
      var b := LeBytes(0xff_ffff_ffff, n);
      PowersGrow(5, n);
      assert Pow256(5) == 0x100 * Pow256(4);
      LeValueOfBytes(0xff_ffff_ffff, n);
      assert |b| == n;
    }
  }

  // ------------------------------------------------------------------------- BCD

  function FromBCD(b: byte): nat {
    b / 16 * 10 + b % 16
  }

  function ToBCD(i: nat): byte {
    (i / 10 * 16 + i % 10) % 0x100
  }

  lemma Packed(q: nat, r: nat)
    requires q < 16 && r < 10
    ensures FromBCD((q * 16 + r) % 0x100) == q * 10 + r
  {
    ModUnique(0, 0x100, q * 16 + r, q * 16 + r);
    ModUnique(q, 16, r, q * 16 + r);
  }

  lemma LargestBCD(b: byte)
    ensures FromBCD(b) <= 165
  {
  }

  /** A number survives BCD exactly below 160: the high digit of the byte counts up to 15. */
  lemma BCDRoundTrip(i: nat)
    ensures FromBCD(ToBCD(i)) == i <==> i < 160
  {
    var q, r := i / 10, i % 10;
    assert i == q * 10 + r;
    if i < 160 {
      Packed(q, r);
    } else if i <= 165 {
      assert q == 16 && ToBCD(i) == (0 * 16 + r) % 0x100;
      Packed(0, r);
    } else {
      LargestBCD(ToBCD(i));
    }
    hide *;
  }

  predicate Proper(t: Civil) {
    t.year < 16_000 && t.month < 100 && t.day < 100 && t.weekday < 7 && t.hour < 100 && t.minute < 100 && t.second < 100
  }

  function Weekday(t: Civil): nat {
    if t.weekday == 0 then 7 else t.weekday
  }

  function DateOf(t: Civil): (s: seq<byte>)
    ensures |s| == 4
  {
    [ToBCD(t.year / 100), ToBCD(t.year % 100), ToBCD(t.month), ToBCD(t.day)]
  }

  function MomentBytes(t: Civil): (s: seq<byte>)
    ensures |s| == 8
  {
    DateOf(t) + TimeOf(t)
  }

  /** The arguments handed to `time.Date`. */
  datatype Decoded = Decoded(year: nat, month: nat, day: nat, hour: nat, minute: nat, second: nat)

  function DecodeDate(c: seq<byte>): Coded<Decoded> {
    if |c| < 4 then Rejected
    else
      var d := c + seq(if |c| <= 8 then 9 - |c| else 0, i => 0);
      Done(Decoded(FromBCD(d[0]) * 100 + FromBCD(d[1]), FromBCD(d[2]), FromBCD(d[3]),
                   FromBCD(d[5]), FromBCD(d[6]), FromBCD(d[7])))
  }

  /** Both date decoders: the slice bounds are computed in `uint8`. */
  function DateDecode(et: EventType, b: seq<byte>): Coded<Decoded> {
    if |b| < et.blockLength then Rejected
    else
      var lo, hi := et.bytePosition, Ix(et.bytePosition, et.byteLength);
      if lo <= hi <= |b| then DecodeDate(b[lo..hi]) else Panicked
  }

  lemma SpliceSplice(b: seq<byte>, pos: nat, x: seq<byte>, y: seq<byte>)
    requires pos + |x| + |y| <= |b|
    ensures Splice(Splice(b, pos, x), pos + |x|, y) == Splice(b, pos, x + y)
  {
  }

  /** The four bytes of the date, common to both encoders. */
  method PutDate(b: array<byte>, pos: nat, t: Civil)
    requires pos + 4 <= b.Length
    modifies b
    ensures b[..] == Splice(old(b[..]), pos, DateOf(t))
  {
    hide ToBCD;
    b[pos] := ToBCD(t.year / 100);
    b[pos + 1] := ToBCD(t.year % 100);
    b[pos + 2] := ToBCD(t.month);
    b[pos + 3] := ToBCD(t.day);
  }

  method DateTimeEncode(et: EventType, b: array<byte>, t: Civil) returns (ok: bool)
    requires b.Length <= 0x100
    modifies b
    ensures ok <==> et.bytePosition as int + 8 <= b.Length
    ensures b[..] == if ok then Splice(old(b[..]), et.bytePosition, MomentBytes(t)) else old(b[..])
  {
    hide Splice, ToBCD, DateOf, Weekday;
    var pos: nat := et.bytePosition;
    if b.Length < pos + 8 {
      return false;
    }
    PutDate(b, pos, t);
    PutTime(b, pos + 4, t);
    SpliceSplice(old(b[..]), pos, DateOf(t), TimeOf(t));
    ok := true;
  }

  function TimeOf(t: Civil): (s: seq<byte>)
    ensures |s| == 4
  {
    [ToBCD(Weekday(t)), ToBCD(t.hour), ToBCD(t.minute), ToBCD(t.second)]
  }

  /** Weekday and time of day. */
  method PutTime(b: array<byte>, at: nat, t: Civil)
    requires at + 4 <= b.Length
    modifies b
    ensures b[..] == Splice(old(b[..]), at, TimeOf(t))
  {
    hide ToBCD;
    var wday := t.weekday;
    if wday == 0 {
      wday := 7;
    }
    b[at] := ToBCD(wday);
    b[at + 1] := ToBCD(t.hour);
    b[at + 2] := ToBCD(t.minute);
    b[at + 3] := ToBCD(t.second);
  }

  /** The date-only encoder also writes the weekday and three zeroes, as far as the buffer reaches. */
  function DateBytes(t: Civil, room: nat): (s: seq<byte>)
    requires room >= 4
    ensures |s| == Min(room, 8)
  {
    seq(Min(room, 8), k requires 0 <= k < 8 => DateByte(t, k))
  }

  function DateByte(t: Civil, k: nat): byte
    requires k < 8
  {
    if k < 4 then DateOf(t)[k] else if k == 4 then ToBCD(Weekday(t)) else 0
  }

  method DateOnlyEncode(et: EventType, b: array<byte>, t: Civil) returns (ok: bool)
    requires b.Length <= 0x100
    modifies b
    ensures ok <==> et.bytePosition as int + 4 <= b.Length
    ensures b[..] == if ok then Splice(old(b[..]), et.bytePosition, DateBytes(t, b.Length - et.bytePosition)) else old(b[..])
  {
    hide Splice, ToBCD, DateOf, DateBytes, Weekday;
    var pos: nat := et.bytePosition;
    if b.Length < pos + 4 {
      return false;
    }
    PutDate(b, pos, t);
    PutTail(b, pos + 4, t);
    SpliceSplice(old(b[..]), pos, DateOf(t), Tail(t, Min(b.Length - pos, 8) - 4));
    DateBytesAre(t, b.Length - pos);
    ok := true;
  }

  function Tail(t: Civil, n: nat): (s: seq<byte>)
    requires n <= 4
    ensures |s| == n
  {
    [ToBCD(Weekday(t)), 0, 0, 0][..n]
  }

  /** What follows the date, each byte only if the buffer has room for it. */
  method PutTail(b: array<byte>, at: nat, t: Civil)
    requires at <= b.Length
    modifies b
    ensures b[..] == Splice(old(b[..]), at, Tail(t, Min(b.Length - at, 4)))
  {
    hide ToBCD;
    if b.Length > at {
      var wday := t.weekday;
      if wday == 0 {
        wday := 7;
      }
      b[at] := ToBCD(wday);
      if b.Length > at + 1 {
        b[at + 1] := 0;
        if b.Length > at + 2 {
          b[at + 2] := 0;
          if b.Length > at + 3 {
            b[at + 3] := 0;
          }
        }
      }
    }
  }

  lemma DateBytesAre(t: Civil, room: nat)
    requires room >= 4
    ensures DateBytes(t, room) == DateOf(t) + Tail(t, Min(room, 8) - 4)
  {
    hide ToBCD, DateOf;
  }

  function ThroughBCD(i: nat): nat {
    FromBCD(ToBCD(i))
  }

  /** What a point in time reads back as: every field has gone through BCD. */
  function Restored(t: Civil): Decoded {
    Decoded(ThroughBCD(t.year / 100) * 100 + ThroughBCD(t.year % 100), ThroughBCD(t.month), ThroughBCD(t.day),
            ThroughBCD(t.hour), ThroughBCD(t.minute), ThroughBCD(t.second))
  }

  /** Every proper date and time is restored as it was. */
  lemma ProperIsRestored(t: Civil)
    requires Proper(t)
    ensures Restored(t) == Decoded(t.year, t.month, t.day, t.hour, t.minute, t.second)
  {
    BCDRoundTrip(t.year / 100);
    BCDRoundTrip(t.year % 100);
    BCDRoundTrip(t.month);
    BCDRoundTrip(t.day);
    BCDRoundTrip(t.hour);
    BCDRoundTrip(t.minute);
    BCDRoundTrip(t.second);
    hide FromBCD, ToBCD;
  }

  /** The fields a slice of 4 to 8 bytes stands for; missing bytes count as zero. */
  lemma DecodeDateFields(c: seq<byte>)
    requires 4 <= |c| <= 8
    ensures DecodeDate(c) ==
            Done(Decoded(FromBCD(c[0]) * 100 + FromBCD(c[1]), FromBCD(c[2]), FromBCD(c[3]),
                         if |c| > 5 then FromBCD(c[5]) else 0,
                         if |c| > 6 then FromBCD(c[6]) else 0,
                         if |c| > 7 then FromBCD(c[7]) else 0))
  {
    assert FromBCD(0) == 0;
    hide FromBCD;
  }

  lemma SpliceReadsBack(b: seq<byte>, pos: nat, s: seq<byte>, n: nat)
    requires pos + |s| <= |b| && n <= |s|
    ensures Splice(b, pos, s)[pos..pos + n] == s[..n]
  {
  }

  lemma DateDecodeSlice(et: EventType, b: seq<byte>)
    requires et.blockLength <= |b| <= 0xff && et.bytePosition as int + et.byteLength <= |b|
    ensures DateDecode(et, b) == DecodeDate(b[et.bytePosition..et.bytePosition as int + et.byteLength])
  {
    hide DecodeDate;
  }

  /** Date and time read back, field by field. */
  lemma DateTimeReadsBack(et: EventType, b: seq<byte>, t: Civil)
    requires et.byteLength == 8
    requires et.blockLength <= |b| <= 0xff && et.bytePosition as int + 8 <= |b|
    ensures DateDecode(et, Splice(b, et.bytePosition, MomentBytes(t))) == Done(Restored(t))
  {
    hide Splice, DateDecode, DecodeDate, MomentBytes, Restored;
    var c := Splice(b, et.bytePosition, MomentBytes(t));
    DateDecodeSlice(et, c);
    SpliceReadsBack(b, et.bytePosition, MomentBytes(t), 8);
    assert MomentBytes(t)[..8] == MomentBytes(t);
    BytesReadBack(t);
  }

  lemma BytesReadBack(t: Civil)
    ensures DecodeDate(MomentBytes(t)) == Done(Restored(t))
  {
    hide FromBCD, ToBCD, DecodeDate;
    DecodeDateFields(MomentBytes(t));
  }

  lemma DateBytesReadBack(t: Civil, room: nat, n: nat)
    requires 4 <= n <= 8 && n <= room
    ensures DecodeDate(DateBytes(t, room)[..n]) == Done(Restored(t).(hour := 0, minute := 0, second := 0))
  {
    hide FromBCD, ToBCD, DecodeDate, DateBytes, DateOf;
    ZeroIsZero();
    var c := DateBytes(t, room)[..n];
    forall k: nat | k < n
      ensures c[k] == DateByte(t, k)
    {
      DateByteAt(t, room, k);
    }
    FirstBytes(t);
    DecodeDateFields(c);
  }

  lemma ZeroIsZero()
    ensures FromBCD(0) == 0
  {
  }

  lemma DateByteAt(t: Civil, room: nat, k: nat)
    requires room >= 4 && k < Min(room, 8)
    ensures DateBytes(t, room)[k] == DateByte(t, k)
  {
    hide DateByte;
  }

  lemma FirstBytes(t: Civil)
    ensures DateOf(t) == [ToBCD(t.year / 100), ToBCD(t.year % 100), ToBCD(t.month), ToBCD(t.day)]
  {
    hide ToBCD;
  }

  /** The date reads back, with midnight for the time, whichever of the lengths 4 to 8 is used. */
  lemma DateReadsBack(et: EventType, b: seq<byte>, t: Civil)
    requires 4 <= et.byteLength <= 8
    requires et.blockLength <= |b| <= 0xff && et.bytePosition as int + et.byteLength <= |b|
    ensures DateDecode(et, Splice(b, et.bytePosition, DateBytes(t, |b| - et.bytePosition))) ==
            Done(Restored(t).(hour := 0, minute := 0, second := 0))
  {
    hide Splice, DateDecode, DecodeDate, DateBytes, Restored;
    var s := DateBytes(t, |b| - et.bytePosition);
    DateDecodeSlice(et, Splice(b, et.bytePosition, s));
    SpliceReadsBack(b, et.bytePosition, s, et.byteLength);
    DateBytesReadBack(t, |b| - et.bytePosition, et.byteLength);
  }

  /** Encoding the date into the buffer changes nothing outside the event's own bytes. */
  predicate DateStays(et: EventType, b: seq<byte>, t: Civil)
    requires et.bytePosition as int + 4 <= |b|
  {
    KeepsOutside(b, Splice(b, et.bytePosition, DateBytes(t, |b| - et.bytePosition)), et.bytePosition, et.byteLength)
  }

  /** The date-only encoder keeps to its own bytes, in every buffer, exactly when nothing lies behind them. */
  lemma DateFrame(et: EventType, size: nat, t: Civil)
    requires et.bytePosition as int + 4 <= size
    ensures et.byteLength >= 8 || size <= et.bytePosition as int + et.byteLength <==>
              forall b: seq<byte> :: |b| == size ==> DateStays(et, b, t)
  {
    var pos, n: nat := et.bytePosition as int, et.byteLength;
    hide ToBCD;
    if !(n >= 8 || size <= pos + n) {
      var s := DateBytes(t, size - pos);
      var x: byte := if s[n] == 0 then 1 else 0;
      var b: seq<byte> := seq(size, i => x);
      assert Splice(b, pos, s)[pos + n] == s[n];
      assert !DateStays(et, b, t);
    } else {
      forall b: seq<byte> | |b| == size
        ensures DateStays(et, b, t)
      {
        SpliceOutside(b, pos, DateBytes(t, size - pos), n);
      }
    }
  }

  lemma SpliceOutside(b: seq<byte>, pos: nat, s: seq<byte>, n: nat)
    requires pos + |s| <= |b| && |s| <= n
    ensures KeepsOutside(b, Splice(b, pos, s), pos, n)
  {
  }

  predicate KeepsOutside(b: seq<byte>, c: seq<byte>, pos: nat, n: nat) {
    |b| == |c| && forall j :: 0 <= j < |b| && !(pos <= j < pos + n) ==> c[j] == b[j]
  }

  // ------------------------------------------------------------- switching times

  /** Times of day in minutes. */
  datatype OnOff = OnOff(on: nat, off: nat)

  /** Five bits of hours, three bits of tens of minutes. */
  function Minutes(b: byte): nat {
    b / 8 * 60 + b % 8 * 10
  }

  function Switches(chunk: seq<byte>): seq<OnOff> {
    if |chunk| < 2 || chunk[0] == 255 || chunk[1] == 255 then []
    else [OnOff(Minutes(chunk[0]), Minutes(chunk[1]))] + Switches(chunk[2..])
  }

  predicate UnusedPair(chunk: seq<byte>, k: nat) {
    2 * k + 1 >= |chunk| || chunk[2 * k] == 255 || chunk[2 * k + 1] == 255
  }

  lemma MinutesAre(b: byte)
    ensures Minutes(b) == b / 8 * 60 + b % 8 * 10
  {
  }

  /** The longest run of complete pairs from the start of the chunk without a 255. */
  lemma {:induction false} SwitchesMaximal(chunk: seq<byte>)
    ensures var s := Switches(chunk);
            && (forall k :: 0 <= k < |s| ==>
                  && 2 * k + 1 < |chunk| && chunk[2 * k] != 255 && chunk[2 * k + 1] != 255
                  && s[k].on == chunk[2 * k] as int / 8 * 60 + chunk[2 * k] as int % 8 * 10
                  && s[k].off == chunk[2 * k + 1] as int / 8 * 60 + chunk[2 * k + 1] as int % 8 * 10)
            && (2 * |s| + 1 >= |chunk| || chunk[2 * |s|] == 255 || chunk[2 * |s| + 1] == 255)
  {
    SwitchesLongest(chunk);
    forall k | 0 <= k < |Switches(chunk)|
      ensures 2 * k + 1 < |chunk|
      ensures Switches(chunk)[k].on == chunk[2 * k] as int / 8 * 60 + chunk[2 * k] as int % 8 * 10
      ensures Switches(chunk)[k].off == chunk[2 * k + 1] as int / 8 * 60 + chunk[2 * k + 1] as int % 8 * 10
    {
      assert !UnusedPair(chunk, k);
      MinutesAre(chunk[2 * k]);
      MinutesAre(chunk[2 * k + 1]);
    }
  }

  lemma {:induction false} SwitchesLongest(chunk: seq<byte>)
    ensures var s := Switches(chunk);
            && (forall k :: 0 <= k < |s| ==>
                  !UnusedPair(chunk, k) && s[k] == OnOff(Minutes(chunk[2 * k]), Minutes(chunk[2 * k + 1])))
            && UnusedPair(chunk, |s|)
    decreases |chunk|
  {
    if !UnusedPair(chunk, 0) {
      SwitchesLongest(chunk[2..]);
      var s := Switches(chunk);
      forall k | 0 <= k < |s|
        ensures !UnusedPair(chunk, k) && s[k] == OnOff(Minutes(chunk[2 * k]), Minutes(chunk[2 * k + 1]))
      {
        if k > 0 {
          assert !UnusedPair(chunk[2..], k - 1);
        }
      }
      assert UnusedPair(chunk[2..], |s| - 1);
    }
  }

  lemma SizeIsZero(length: nat, factor: nat)
    requires factor > 0
    ensures length / factor == 0 <==> factor > length
  {
    DivDef(length, factor);
    if factor > length {
      ModUnique(0, factor, length, length);
    }
  }

  lemma QuotientIsByte(n: nat, size: nat)
    requires size > 0 && n < 0x100
    ensures n / size % 0x100 == n / size
  {
    DivDef(n, size);
    if n / size > n {
      MulMonotone(1, size, n / size);
    }
  }

  /** From `base` on, `size` bytes are there; indices are those of `uint8`. */
  ghost predicate Reaches(b: seq<byte>, base: byte, size: nat) {
    forall j: nat :: j < size ==> Ix(base, j) < |b|
  }

  function Chunk(b: seq<byte>, base: byte, size: nat): (s: seq<byte>)
    requires Reaches(b, base, size)
    ensures |s| == size
  {
    seq(size, j requires 0 <= j < size => b[Ix(base, j)])
  }

  lemma ChunkEnds(n: nat, size: nat, i: nat)
    requires size > 0 && i < n / size
    ensures i * size + size <= n
  {
    DivDef(n, size);
    MulMonotone(i + 1, n / size, size);
    Successor(i, size);
  }

  lemma Successor(i: nat, size: nat)
    ensures (i + 1) * size == i * size + size
  {
  }

  /** No chunk leaves the buffer: a short one because the chunks fit, a long one because indices wrap. */
  lemma ChunksReach(b: seq<byte>, size: nat, i: nat)
    requires size > 0 && i < |b| / size
    ensures Reaches(b, i * size % 0x100, size)
  {
    ChunkEnds(|b|, size, i);
    ReachesFrom(b, i * size, size);
  }

  lemma ReachesFrom(b: seq<byte>, p: nat, size: nat)
    requires p + size <= |b|
    ensures Reaches(b, p % 0x100, size)
  {
  }

  /** In a buffer of at most 255 bytes nothing wraps. */
  lemma ChunkIsSlice(b: seq<byte>, size: nat, i: nat)
    requires size > 0 && i < |b| / size && |b| <= 0xff
    ensures i * size + size <= |b| && Reaches(b, i * size % 0x100, size)
    ensures Chunk(b, i * size % 0x100, size) == b[i * size..i * size + size]
  {
    ChunkEnds(|b|, size, i);
    ReachesFrom(b, i * size, size);
    SliceFrom(b, i * size, size);
  }

  lemma SliceFrom(b: seq<byte>, p: nat, size: nat)
    requires p + size <= |b| <= 0xff && Reaches(b, p % 0x100, size)
    ensures Chunk(b, p % 0x100, size) == b[p..p + size]
  {
  }

  /** One list of switching times per chunk of the buffer; the number of chunks is a `uint8`, too. */
  function Times(et: EventType, b: seq<byte>): Coded<seq<seq<OnOff>>> {
    if et.blockFactor == 0 || et.blockFactor > et.blockLength then Panicked
    else
      SizeIsZero(et.blockLength, et.blockFactor);
      var size: nat := et.blockLength / et.blockFactor;
      if |b| % size != 0 then Rejected
      else
        Done(seq(|b| / size % 0x100, i requires 0 <= i < |b| / size % 0x100 =>
          ChunksReach(b, size, i); Switches(Chunk(b, i * size % 0x100, size))))
  }

  /** The loops over chunks and pairs. */
  method MappingTime53Decode(et: EventType, b: seq<byte>) returns (r: Coded<seq<seq<OnOff>>>)
    ensures r == Times(et, b)
  {
    hide Reaches, Chunk, Switches;
    if et.blockFactor == 0 {
      return Panicked;
    }
    SizeIsZero(et.blockLength, et.blockFactor);
    QuotientIsByte(et.blockLength, et.blockFactor);
    var size: byte := et.blockLength / et.blockFactor;
    if size == 0 {
      return Panicked;
    }
    if |b| % size != 0 {
      return Rejected;
    }
    var w := DecodeChunks(b, size, |b| / size % 0x100);
    ghost var t := Times(et, b);
    assert t.Done? && |t.value| == |w|;
    assert forall i :: 0 <= i < |w| ==> t.value[i] == w[i];
    assert t.value == w;
    r := Done(w);
  }

  method DecodeChunks(b: seq<byte>, size: byte, num: byte) returns (w: seq<seq<OnOff>>)
    requires size > 0 && num as int <= |b| / size
    ensures |w| == num
    ensures forall i :: 0 <= i < num ==> Reaches(b, i * size % 0x100, size) && w[i] == Switches(Chunk(b, i * size % 0x100, size))
  {
    hide Reaches, Chunk, Switches;
    w := [];
    var i: byte := 0;
    while i < num
      invariant i <= num && |w| == i
      invariant forall k :: 0 <= k < i ==>
                  Reaches(b, k * size % 0x100, size) && w[k] == Switches(Chunk(b, k * size % 0x100, size))
    {
      ChunksReach(b, size, i);
      var d := DecodeChunk(b, size, i * size % 0x100);
      w := w + [d];
      i := i + 1;
    }
  }

  method DecodeChunk(b: seq<byte>, size: byte, base: byte) returns (d: seq<OnOff>)
    requires size > 0 && Reaches(b, base, size)
    ensures d == Switches(Chunk(b, base, size))
  {
    hide Switches, Minutes;
    ghost var chunk := Chunk(b, base, size);
    d := [];
    var j: nat := 0;
    while j < size - 1
      invariant j <= size
      invariant d + Switches(chunk[j..]) == Switches(chunk)
    {
      var on, off := b[Ix(base, j)], b[Ix(base, j + 1)];
      SwitchesStep(chunk, j);
      assert on == chunk[j] && off == chunk[j + 1];
      if on == 255 || off == 255 {
        return;
      }
      d := d + [OnOff(Minutes(on), Minutes(off))];
      j := (j + 2) % 0x100;   // does not wrap
    }
    SwitchesEnd(chunk, j);
  }

  lemma SwitchesEnd(chunk: seq<byte>, j: nat)
    requires |chunk| - 1 <= j <= |chunk|
    ensures Switches(chunk[j..]) == []
  {
  }

  lemma SwitchesStep(chunk: seq<byte>, j: nat)
    requires j + 1 < |chunk|
    ensures Switches(chunk[j..]) ==
            if chunk[j] == 255 || chunk[j + 1] == 255 then []
            else [OnOff(Minutes(chunk[j]), Minutes(chunk[j + 1]))] + Switches(chunk[j + 2..])
  {
    assert chunk[j..][2..] == chunk[j + 2..];
  }

  /** The block splits into as many chunks of equal size as the block factor says, each decoded for itself. */
  lemma TimesOfChunks(et: EventType, b: seq<byte>)
    requires |b| <= 0xff
    ensures Times(et, b).Panicked? <==> et.blockFactor == 0 || et.blockFactor > et.blockLength
    ensures var size := if et.blockFactor == 0 then 0 else et.blockLength / et.blockFactor;
            && (Times(et, b).Rejected? <==> size > 0 && |b| % size != 0)
            && (Times(et, b).Done? ==>
                  && size > 0 && |Times(et, b).value| == |b| / size
                  && forall i :: 0 <= i < |b| / size ==>
                       i * size + size <= |b| && Times(et, b).value[i] == Switches(b[i * size..i * size + size]))
  {
    hide Switches, Chunk, Reaches;
    if et.blockFactor > 0 {
      SizeIsZero(et.blockLength, et.blockFactor);
      var size: nat := et.blockLength / et.blockFactor;
      if size > 0 && |b| % size == 0 {
        QuotientIsByte(|b|, size);
        forall i | 0 <= i < |b| / size
          ensures i * size + size <= |b| && Times(et, b).value[i] == Switches(b[i * size..i * size + size])
        {
          ChunkIsSlice(b, size, i);
        }
      }
    }
  }

  // --------------------------------------------------------------- error history

  datatype ErrEntry = ErrEntry(kind: byte, date: Coded<Decoded>)

  /**
   * Nine bytes per entry: a kind and a date, whose seventh byte is the last one looked at. The last
   * entry may lack its ninth byte.
   */
  function Errors(b: seq<byte>): Coded<seq<ErrEntry>>
    decreases |b|
  {
    if b == [] then Done([])
    else if |b| < 8 then Panicked
    else
      match Errors(if |b| < 9 then [] else b[9..])
      case Done(h) => Done([ErrEntry(b[0], DecodeDate(b[1..8]))] + h)
      case Rejected => Rejected
      case Panicked => Panicked
  }

  /**
   * One entry for every nine bytes begun, each with its kind and the date behind it; the bytes of the
   * last entry must suffice for the date.
   */
  lemma {:induction false} ErrorsAre(b: seq<byte>)
    ensures Errors(b).Done? <==> |b| % 9 == 0 || |b| % 9 == 8
    ensures Errors(b).Panicked? <==> 0 < |b| % 9 < 8
    ensures Errors(b).Done? ==>
              && |Errors(b).value| == (|b| + 8) / 9
              && forall j :: 0 <= j < |Errors(b).value| ==>
                   9 * j + 8 <= |b| && Errors(b).value[j] == ErrEntry(b[9 * j], DecodeDate(b[9 * j + 1..9 * j + 8]))
    decreases |b|
  {
    hide DecodeDate;
    if |b| >= 9 {
      ErrorsAre(b[9..]);
      var h := Errors(b[9..]);
      if h.Done? {
        assert Errors(b).value == [ErrEntry(b[0], DecodeDate(b[1..8]))] + h.value;
        forall j | 0 <= j < |Errors(b).value|
          ensures 9 * j + 8 <= |b| && Errors(b).value[j] == ErrEntry(b[9 * j], DecodeDate(b[9 * j + 1..9 * j + 8]))
        {
          if j > 0 {
            assert b[9..][9 * (j - 1) + 1..9 * (j - 1) + 8] == b[9 * j + 1..9 * j + 8];
          }
        }
      }
    } else if |b| == 8 {
      assert Errors([]) == Done([]);
    }
  }

  // ---------------------------------------------------------- dates in plain digits

  /** A number below 100 is written with its two decimal digits. */
  lemma BCDDigits(i: nat)
    requires i < 100
    ensures ToBCD(i) / 16 == i / 10 < 10 && ToBCD(i) % 16 == i % 10
  {
  }

  /** The fields in the order of the bytes; Sunday counts as day 7. */
  function Fields(t: Civil): seq<nat> {
    [t.year / 100, t.year % 100, t.month, t.day, if t.weekday == 0 then 7 else t.weekday, t.hour, t.minute, t.second]
  }

  predicate InDigits(b: byte, i: nat) {
    b / 16 == i / 10 && b % 16 == i % 10 && b / 16 < 10
  }

  predicate InCalendar(t: Civil) {
    t.year < 10_000 && t.month < 100 && t.day < 100 && t.weekday < 7 && t.hour < 100 && t.minute < 100 && t.second < 100
  }

  /** Date and time lie in the buffer field by field, two decimal digits each. */
  lemma MomentInDigits(t: Civil)
    requires InCalendar(t)
    ensures forall k :: 0 <= k < 8 ==> InDigits(MomentBytes(t)[k], Fields(t)[k])
  {
    hide ToBCD, InDigits;
    forall k | 0 <= k < 8
      ensures InDigits(MomentBytes(t)[k], Fields(t)[k])
    {
      FieldInDigits(Fields(t)[k]);
    }
  }

  lemma FieldInDigits(i: nat)
    requires i < 100
    ensures InDigits(ToBCD(i), i)
  {
    BCDDigits(i);
    hide ToBCD;
  }

  /** The date-only encoder writes the same date and weekday, and zeroes behind them. */
  lemma DateInDigits(t: Civil, room: nat)
    requires InCalendar(t) && room >= 4
    ensures forall k :: 0 <= k < Min(room, 8) ==> InDigits(DateBytes(t, room)[k], if k < 5 then Fields(t)[k] else 0)
  {
    hide ToBCD, InDigits, DateBytes, DateOf;
    FirstBytes(t);
    forall k: nat | k < Min(room, 8)
      ensures InDigits(DateBytes(t, room)[k], if k < 5 then Fields(t)[k] else 0)
    {
      DateByteAt(t, room, k);
      FieldInDigits(if k < 5 then Fields(t)[k] else 0);
      ZeroIsBCD();
    }
  }

  lemma ZeroIsBCD()
    ensures ToBCD(0) == 0
  {
  }

  /** The decoders read two decimal digits per byte, the weekday excepted; bytes that are missing count as zero. */
  lemma DateFromDigits(c: seq<byte>)
    ensures |c| < 4 ==> DecodeDate(c).Rejected?
    ensures 4 <= |c| <= 8 ==>
              var d := DecodeDate(c);
              && d.Done?
              && d.value.year == (c[0] as int / 16 * 10 + c[0] % 16) * 100 + c[1] / 16 * 10 + c[1] % 16
              && d.value.month == c[2] / 16 * 10 + c[2] % 16
              && d.value.day == c[3] / 16 * 10 + c[3] % 16
              && d.value.hour == (if |c| > 5 then c[5] / 16 * 10 + c[5] % 16 else 0)
              && d.value.minute == (if |c| > 6 then c[6] / 16 * 10 + c[6] % 16 else 0)
              && d.value.second == (if |c| > 7 then c[7] / 16 * 10 + c[7] % 16 else 0)
  {
    if 4 <= |c| <= 8 {
      DecodeDateFields(c);
      hide DecodeDate;
    }
  }
}
