/** Which description of a device is used, and what the check of an event description guarantees. */
module Selection {
  import opened Bytes
  import opened Events
  import Codecs

  // ------------------------------------------------------------ device description

  /** A description with its hexadecimal fields parsed; an unreadable bound counts as zero. */
  datatype Entry = Entry(id: string, ident: Option<Addr>, extLen: nat, tillLen: nat, ext: nat, till: nat)

  type SysDeviceIdent = s: seq<byte> | |s| == 8 witness [0, 0, 0, 0, 0, 0, 0, 0]

  const NO_ENTRY := Entry("", None, 0, 0, 0, 0)

  predicate LengthOk(n: nat) {
    n == 0 || 4 <= n <= 6
  }

  /** The device's identification extension, wider if one of the entry's bounds is. */
  function Extension(dev: SysDeviceIdent, d: Entry): nat {
    var base := dev[2] as int * 0x100 + dev[3];
    if d.extLen > 4 || d.tillLen > 4 then base * 0x1_0000 + dev[4] as int * 0x100 + dev[5] else base
  }

  predicate Matches(dev: SysDeviceIdent, d: Entry) {
    && d.ident.Some? && LengthOk(d.extLen) && LengthOk(d.tillLen)
    && dev[0] == d.ident.value / 0x100 && dev[1] == d.ident.value % 0x100
    && d.ext <= Extension(dev, d) && (Extension(dev, d) < d.till || d.till == 0)
  }

  /** The comparison the loop makes. */
  predicate Better(d: Entry, dp: Entry) {
    d.ext >= dp.ext && (d.till < dp.till || dp.till == 0)
  }

  function Consider(dev: SysDeviceIdent, dp: Entry, d: Entry): Entry {
    if Matches(dev, d) && (dp.id == "" || Better(d, dp)) then d else dp
  }

  /** The description held after the first n entries. */
  function Held(dev: SysDeviceIdent, entries: seq<Entry>, n: nat): Entry
    requires n <= |entries|
  {
    if n == 0 then NO_ENTRY else Consider(dev, Held(dev, entries, n - 1), entries[n - 1])
  }

  /**
   * The first two bytes are the entry's identification, and the next two - or four, if one of the bounds
   * has more than four digits - are a number in its half-open interval, without end for the bound 0.
   */
  lemma MatchesIs(dev: SysDeviceIdent, d: Entry)
    ensures Matches(dev, d) <==>
              && d.ident == Some(dev[0] as int * 0x100 + dev[1])
              && d.extLen in {0, 4, 5, 6} && d.tillLen in {0, 4, 5, 6}
              && var x := if d.extLen <= 4 && d.tillLen <= 4 then dev[2] as int * 0x100 + dev[3]
                          else dev[2] as int * 0x100_0000 + dev[3] as int * 0x1_0000 + dev[4] as int * 0x100 + dev[5];
                 d.ext <= x && (d.till == 0 || x < d.till)
  {
  }

  method FindDataPointType(dev: SysDeviceIdent, entries: seq<Entry>) returns (r: Option<Entry>)
    ensures var dp := Held(dev, entries, |entries|);
            r == if dp.id == "" then None else Some(dp)
    ensures r.Some? ==>
              var d := r.value;
              && d in entries && d.id != "" && d.ident == Some(dev[0] as int * 0x100 + dev[1])
              && var x := if d.extLen <= 4 && d.tillLen <= 4 then dev[2] as int * 0x100 + dev[3]
                          else dev[2] as int * 0x100_0000 + dev[3] as int * 0x1_0000 + dev[4] as int * 0x100 + dev[5];
                 d.ext <= x && (d.till == 0 || x < d.till)
    ensures (forall d :: d in entries ==> d.id != "") ==>
              (r == None <==>
               forall d :: d in entries && d.ident == Some(dev[0] as int * 0x100 + dev[1]) &&
                           d.extLen in {0, 4, 5, 6} && d.tillLen in {0, 4, 5, 6} ==>
                 var x := if d.extLen <= 4 && d.tillLen <= 4 then dev[2] as int * 0x100 + dev[3]
                          else dev[2] as int * 0x100_0000 + dev[3] as int * 0x1_0000 + dev[4] as int * 0x100 + dev[5];
                 x < d.ext || (d.till != 0 && d.till <= x))
  {
    var dp := NO_ENTRY;
    for i := 0 to |entries|
      invariant dp == Held(dev, entries, i)
    {
      var d := entries[i];
      if d.ident.Some? && LengthOk(d.extLen) && LengthOk(d.tillLen) {
        if dev[0] == d.ident.value / 0x100 && dev[1] == d.ident.value % 0x100 {
          var x := dev[2] as int * 0x100 + dev[3];
          if d.extLen > 4 || d.tillLen > 4 {
            x := x * 0x1_0000 + dev[4] as int * 0x100 + dev[5];
          }
          if x >= d.ext && (x < d.till || d.till == 0) {
            if dp.id == "" {
              dp := d;
            } else if d.ext >= dp.ext && (d.till < dp.till || dp.till == 0) {
              dp := d;
            }
          }
        }
      }
    }
    r := if dp.id == "" then None else Some(dp);
    if r.Some? {
      HeldIsMatch(dev, entries, |entries|);
      MatchesIs(dev, dp);
    }
    if forall d :: d in entries ==> d.id != "" {
      HeldMatches(dev, entries, |entries|);
      forall d | d in entries
        ensures Matches(dev, d) ==> r.Some?
      {
        var i :| 0 <= i < |entries| && entries[i] == d;
      }
      forall d | d in entries
        ensures Matches(dev, d) <==>
                  && d.ident == Some(dev[0] as int * 0x100 + dev[1])
                  && d.extLen in {0, 4, 5, 6} && d.tillLen in {0, 4, 5, 6}
                  && var x := if d.extLen <= 4 && d.tillLen <= 4 then dev[2] as int * 0x100 + dev[3]
                              else dev[2] as int * 0x100_0000 + dev[3] as int * 0x1_0000 + dev[4] as int * 0x100 + dev[5];
                     d.ext <= x && (d.till == 0 || x < d.till)
      {
        MatchesIs(dev, d);
      }
    }
  }

  /** Bound 0 means that the interval is open above. */
  predicate NarrowerAbove(e: Entry, c: Entry) {
    e.till != 0 && (c.till == 0 || e.till < c.till)
  }

  /** The interval of e lies no lower and ends earlier. */
  predicate Dominates(e: Entry, c: Entry) {
    e.ext >= c.ext && NarrowerAbove(e, c)
  }

  /** An entry without identifier is taken for none at all; the loop presumes there is no such match. */
  ghost predicate Named(dev: SysDeviceIdent, entries: seq<Entry>) {
    forall e :: e in entries && Matches(dev, e) ==> e.id != ""
  }

  ghost predicate Undominated(dev: SysDeviceIdent, entries: seq<Entry>, n: nat, c: Entry)
    requires n <= |entries|
  {
    forall i :: 0 <= i < n && Matches(dev, entries[i]) ==> !Dominates(entries[i], c)
  }

  /**
   * The open entry j stands behind the bounded entry i that lies inside it, and behind an entry k, no
   * later than i, that the loop prefers to i but not to j.
   */
  ghost predicate Spoils(dev: SysDeviceIdent, entries: seq<Entry>, k: nat, i: nat, j: nat)
    requires k <= i < j < |entries|
  {
    var x, y, z := entries[k], entries[i], entries[j];
    && Matches(dev, x) && Matches(dev, y) && Matches(dev, z)
    && 0 < x.till <= y.till && z.till == 0
    && x.ext <= z.ext <= y.ext
  }

  ghost predicate Unspoilt(dev: SysDeviceIdent, entries: seq<Entry>) {
    forall k, i, j :: 0 <= k <= i < j < |entries| ==> !Spoils(dev, entries, k, i, j)
  }

  /** What is held is a matching entry of the list, or nothing. */
  lemma {:induction false} HeldIsMatch(dev: SysDeviceIdent, entries: seq<Entry>, n: nat)
    requires n <= |entries|
    ensures var c := Held(dev, entries, n); c.id != "" ==> Matches(dev, c) && c in entries
    decreases n
  {
    if n > 0 {
      HeldIsMatch(dev, entries, n - 1);
      assert entries[n - 1] in entries;
    }
  }

  lemma {:induction false} HeldMatches(dev: SysDeviceIdent, entries: seq<Entry>, n: nat)
    requires Named(dev, entries) && n <= |entries|
    ensures var c := Held(dev, entries, n);
            && (c.id != "" <==> exists i :: 0 <= i < n && Matches(dev, entries[i]))
            && (c.id != "" ==> Matches(dev, c) && exists h :: 0 <= h < n && entries[h] == c)
    decreases n
  {
    if n > 0 {
      HeldMatches(dev, entries, n - 1);
      assert entries[n - 1] in entries;
    }
  }

  /** Without any condition on their order, the lower bound never falls. */
  lemma {:induction false} LowerNeverFalls(dev: SysDeviceIdent, entries: seq<Entry>, m: nat, n: nat)
    requires Named(dev, entries) && m <= n <= |entries| && Held(dev, entries, m).id != ""
    ensures Held(dev, entries, n).id != "" && Held(dev, entries, n).ext >= Held(dev, entries, m).ext
    decreases n
  {
    if m < n {
      LowerNeverFalls(dev, entries, m, n - 1);
      assert entries[n - 1] in entries;
    }
  }

  /**
   * The selection is undominated: an entry is chosen iff one matches, the chosen one matches, and no
   * matching entry - before or after it - has a lower bound at least as high and an upper bound below.
   */
  lemma {:induction false} SelectionUndominated(dev: SysDeviceIdent, entries: seq<Entry>, n: nat)
    requires Named(dev, entries) && Unspoilt(dev, entries) && n <= |entries|
    ensures var c := Held(dev, entries, n);
            && (c.id != "" <==> exists i :: 0 <= i < n && Matches(dev, entries[i]))
            && (c.id != "" ==> Matches(dev, c) && c in entries[..n])
            && Undominated(dev, entries, n, c)
    decreases n
  {
    HeldMatches(dev, entries, n);
    if n > 0 {
      SelectionUndominated(dev, entries, n - 1);
      HeldMatches(dev, entries, n - 1);
      var c, d := Held(dev, entries, n - 1), entries[n - 1];
      forall i | 0 <= i < n && Matches(dev, entries[i])
        ensures !Dominates(entries[i], Held(dev, entries, n))
      {
        if i < n - 1 && Matches(dev, d) && Better(d, c) {
          assert !Dominates(entries[i], c);
          if c.till != 0 && d.till == 0 && entries[i].till != 0 && entries[i].ext >= d.ext {
            NothingReopened(dev, entries, i, n - 1);
            assert false;
          }
        }
      }
    }
  }

  /** Where the open entry j displaces the held one although it encloses an earlier bounded one, the list is spoilt. */
  lemma NothingReopened(dev: SysDeviceIdent, entries: seq<Entry>, i: nat, j: nat)
    requires Named(dev, entries) && i < j < |entries|
    requires Matches(dev, entries[i]) && Matches(dev, entries[j])
    requires entries[i].till != 0 && entries[j].till == 0 && entries[i].ext >= entries[j].ext
    requires Held(dev, entries, j).ext <= entries[j].ext
    ensures !Unspoilt(dev, entries)
  {
    HeldMatches(dev, entries, i);
    assert entries[i] in entries;
    var h := Held(dev, entries, i);
    if h.id == "" || Better(entries[i], h) {
      assert Held(dev, entries, i + 1) == entries[i];
      LowerNeverFalls(dev, entries, i + 1, j);
      assert Spoils(dev, entries, i, i, j);
    } else {
      LowerNeverFalls(dev, entries, i, j);
      var k :| 0 <= k < i && entries[k] == h;
      assert Spoils(dev, entries, k, i, j);
    }
  }

  // The same for every way of leaving entries out.
  predicate Increasing(f: seq<nat>, n: nat) {
    && (forall i :: 0 <= i < |f| ==> f[i] < n)
    && (forall i, j :: 0 <= i < j < |f| ==> f[i] < f[j])
  }

  function Picked(entries: seq<Entry>, f: seq<nat>): seq<Entry>
    requires Increasing(f, |entries|)
  {
    seq(|f|, i requires 0 <= i < |f| => entries[f[i]])
  }

  ghost predicate ChoosesUndominated(dev: SysDeviceIdent, entries: seq<Entry>) {
    Undominated(dev, entries, |entries|, Held(dev, entries, |entries|))
  }

  /** An open entry can displace a bounded one; the choice is undominated in every sublist exactly if none spoils it. */
  lemma SelectionUndominatedIff(dev: SysDeviceIdent, entries: seq<Entry>)
    requires Named(dev, entries)
    ensures Unspoilt(dev, entries) <==>
              forall f :: Increasing(f, |entries|) ==> ChoosesUndominated(dev, Picked(entries, f))
  {
    hide ChoosesUndominated, Spoils;
    if Unspoilt(dev, entries) {
      forall f | Increasing(f, |entries|)
        ensures ChoosesUndominated(dev, Picked(entries, f))
      {
        SublistUnspoilt(dev, entries, f);
        UnspoiltChooses(dev, Picked(entries, f));
      }
    } else {
      var k, i, j :| 0 <= k <= i < j < |entries| && Spoils(dev, entries, k, i, j);
      SpoiltSublist(dev, entries, k, i, j);
    }
  }

  lemma UnspoiltChooses(dev: SysDeviceIdent, entries: seq<Entry>)
    requires Named(dev, entries) && Unspoilt(dev, entries)
    ensures ChoosesUndominated(dev, entries)
  {
    SelectionUndominated(dev, entries, |entries|);
  }

  lemma SublistUnspoilt(dev: SysDeviceIdent, entries: seq<Entry>, f: seq<nat>)
    requires Named(dev, entries) && Unspoilt(dev, entries) && Increasing(f, |entries|)
    ensures Named(dev, Picked(entries, f)) && Unspoilt(dev, Picked(entries, f))
  {
    hide Matches;
    var s := Picked(entries, f);
    forall k, i, j | 0 <= k <= i < j < |s|
      ensures !Spoils(dev, s, k, i, j)
    {
      assert f[k] <= f[i] < f[j];
      assert !Spoils(dev, entries, f[k], f[i], f[j]);
    }
  }

  lemma SpoiltSublist(dev: SysDeviceIdent, entries: seq<Entry>, k: nat, i: nat, j: nat)
    requires Named(dev, entries) && k <= i < j < |entries| && Spoils(dev, entries, k, i, j)
    ensures exists f :: Increasing(f, |entries|) && !ChoosesUndominated(dev, Picked(entries, f))
  {
    var f := if k == i then [i, j] else [k, i, j];
    var s := Picked(entries, f);
    assert Held(dev, s, 1) == entries[k];
    assert Held(dev, s, |s| - 1) == entries[k];
    assert Held(dev, s, |s|) == entries[j];
    assert Dominates(s[|s| - 2], Held(dev, s, |s|));
  }

  /** The chosen interval got no wider on the way from c to d. */
  predicate Narrows(c: Entry, d: Entry) {
    d.id != "" && d.ext >= c.ext && (d == c || c.till == 0 || NarrowerAbove(d, c))
  }

  ghost predicate NeverWidens(dev: SysDeviceIdent, entries: seq<Entry>) {
    forall m, n :: 0 <= m <= n <= |entries| && Held(dev, entries, m).id != "" ==>
      Narrows(Held(dev, entries, m), Held(dev, entries, n))
  }

  /** No open entry that matches stands behind a bounded one with a lower bound no higher than its own. */
  ghost predicate OpenFirst(dev: SysDeviceIdent, entries: seq<Entry>) {
    forall i, j :: 0 <= i < j < |entries| && Matches(dev, entries[i]) && Matches(dev, entries[j]) ==>
      !(entries[i].till != 0 && entries[j].till == 0 && entries[i].ext <= entries[j].ext)
  }

  lemma {:induction false} SelectionNarrows(dev: SysDeviceIdent, entries: seq<Entry>, m: nat, n: nat)
    requires Named(dev, entries) && OpenFirst(dev, entries) && m <= n <= |entries| && Held(dev, entries, m).id != ""
    ensures Narrows(Held(dev, entries, m), Held(dev, entries, n))
    decreases n
  {
    if m < n {
      SelectionNarrows(dev, entries, m, n - 1);
      HeldMatches(dev, entries, n - 1);
      assert entries[n - 1] in entries;
    }
  }

  /** In every sublist the lower bound never falls and the upper bound never rises exactly if the open entries come first. */
  lemma SelectionNarrowsIff(dev: SysDeviceIdent, entries: seq<Entry>)
    requires Named(dev, entries)
    ensures OpenFirst(dev, entries) <==> forall f :: Increasing(f, |entries|) ==> NeverWidens(dev, Picked(entries, f))
  {
    if OpenFirst(dev, entries) {
      forall f | Increasing(f, |entries|)
        ensures NeverWidens(dev, Picked(entries, f))
      {
        var s := Picked(entries, f);
        forall m, n | 0 <= m <= n <= |s| && Held(dev, s, m).id != ""
          ensures Narrows(Held(dev, s, m), Held(dev, s, n))
        {
          SelectionNarrows(dev, s, m, n);
        }
      }
    } else {
      var i, j :| 0 <= i < j < |entries| && Matches(dev, entries[i]) && Matches(dev, entries[j]) &&
                  entries[i].till != 0 && entries[j].till == 0 && entries[i].ext <= entries[j].ext;
      var s := Picked(entries, [i, j]);
      assert Held(dev, s, 1) == entries[i];
      assert Held(dev, s, 2) == entries[j];
    }
  }

  /** A spoilt list: the open interval from 0 displaces the interval from 0 to 2. */
  lemma OpenDisplacesBounded()
    ensures var dev: SysDeviceIdent := [0x20, 0x98, 0, 1, 0, 0, 0, 0];
            var a, b := Entry("bounded", Some(0x2098), 4, 4, 0, 2), Entry("open", Some(0x2098), 4, 0, 0, 0);
            Held(dev, [a, b], 2) == b && Matches(dev, a) && Dominates(a, b)
  {
    var dev: SysDeviceIdent := [0x20, 0x98, 0, 1, 0, 0, 0, 0];
    var a, b := Entry("bounded", Some(0x2098), 4, 4, 0, 2), Entry("open", Some(0x2098), 4, 0, 0, 0);
    assert Held(dev, [a, b], 1) == a;
  }

  // -------------------------------------------------------------- event description

  /** An event description with its numbers parsed where they can be. */
  datatype RawEvent = RawEvent(
    address: Option<Addr>,
    fcRead: byte,
    fcWrite: byte,
    parameter: Parameter,
    blockLength: Option<byte>,
    blockFactor: Option<byte>,
    mappingType: Option<byte>,
    bytePosition: Option<byte>,
    byteLength: Option<byte>,
    bitPosition: Option<byte>,
    bitLength: Option<byte>,
    factor: Option<real>,
    offset: Option<real>,
    lower: Option<real>,
    upper: Option<real>,
    conversion: string,
    hasValueList: bool,
    isFaultHistory: bool)

  function OrZero(b: Option<byte>): byte {
    if b.Some? then b.value else 0
  }

  function OrZeroReal(r: Option<real>): real {
    if r.Some? then r.value else 0.0
  }

  /** The factor a conversion fixes by its name. */
  function FixedFactor(conversion: string): Option<real> {
    match conversion
    case "Div2" => Some(0.5)
    case "Div10" => Some(0.1)
    case "Div100" => Some(0.01)
    case "Div1000" => Some(0.001)
    case "Mult2" => Some(2.0)
    case "Mult5" => Some(5.0)
    case "Mult10" => Some(10.0)
    case "Mult100" => Some(100.0)
    case _ => None
  }

  /** Dividing conversions have the reciprocal of the number in their name, multiplying ones the number itself. */
  lemma FactorsAreNamed()
    ensures forall p :: p in {("Div2", 2), ("Div10", 10), ("Div100", 100), ("Div1000", 1000)} ==>
              FixedFactor(p.0).Some? && FixedFactor(p.0).value * p.1 as real == 1.0
    ensures forall p :: p in {("Mult2", 2), ("Mult5", 5), ("Mult10", 10), ("Mult100", 100)} ==>
              FixedFactor(p.0) == Some(p.1 as real)
  {
  }

  const DURATIONS: set<string> := {"Sec2Hour", "Sec2Minute", "HourDiffSec2Hour"}

  /**
   * The check fills in the event type step by step and overwrites its error as it goes; of the
   * unreadable numbers only the address and the bit length are held against the event.
   */
  method ValidateEventType(x: RawEvent) returns (et: EventType, ok: bool)
    ensures ok <==>
              && x.address.Some? && x.bitLength.Some?
              && OrZero(x.blockLength) as int >= (OrZero(x.bytePosition) as int + OrZero(x.byteLength)) % 0x100
              && x.conversion in {"NoConversion", "MultOffset", "Div2", "Div10", "Div100", "Div1000", "Mult2", "Mult5", "Mult10",
                                  "Mult100", "Sec2Hour", "Sec2Minute", "HourDiffSec2Hour", "DateTimeBCD", "DateBCD"}
    ensures ok ==>
              && x.address == Some(et.address) && et.fcRead == x.fcRead && et.fcWrite == x.fcWrite && et.parameter == x.parameter
              && et.blockLength == OrZero(x.blockLength) && et.blockFactor == OrZero(x.blockFactor)
              && et.bytePosition == OrZero(x.bytePosition) && et.byteLength == OrZero(x.byteLength)
              && et.bitPosition == OrZero(x.bitPosition) && et.bitLength == OrZero(x.bitLength)
              && et.offset == OrZeroReal(x.offset) && et.lower == OrZeroReal(x.lower) && et.upper == OrZeroReal(x.upper)
    ensures ok ==> (et.codec == DivMulOffset ==> et.factor != 0.0) && Codecs.Sane(et)
    ensures ok && x.conversion in DURATIONS ==> et.codec == Sec2Duration
    ensures ok && x.conversion == "DateTimeBCD" ==> et.codec == DateTimeBCD
    ensures ok && x.conversion == "DateBCD" ==> et.codec == DateBCD
    ensures ok && (x.conversion == "MultOffset" || FixedFactor(x.conversion).Some?) ==> et.codec == DivMulOffset
    ensures ok && x.conversion == "NoConversion" ==>
              && (et.codec == ValueList <==> x.hasValueList)
              && (!x.hasValueList ==>
                    && (OrZero(x.mappingType) == 1 <==> et.codec == MappingTime53)
                    && (OrZero(x.mappingType) == 2 <==> et.codec == MappingRaster152)
                    && (OrZero(x.mappingType) > 3 ==> et.codec == Nop)
                    && (et.codec == DivMulOffset <==>
                        OrZero(x.mappingType) == 0 && OrZero(x.byteLength) < 5 && x.bitLength == Some(0))
                    && (et.codec == MappingErrors <==>
                        OrZero(x.mappingType) == 3 ||
                        (OrZero(x.mappingType) == 0 && !(OrZero(x.byteLength) < 5 && x.bitLength == Some(0)) &&
                         OrZero(x.blockLength) == 9 && x.isFaultHistory)))
    ensures ok ==>
              et.factor == if FixedFactor(x.conversion).Some? then FixedFactor(x.conversion).value
                           else if OrZeroReal(x.factor) == 0.0 && et.codec == DivMulOffset then 1.0
                           else OrZeroReal(x.factor)
  {
    et := EventType(0, 0, 0, x.parameter, 0, 0, 0, 0, 0, 0, 0.0, 0.0, 0.0, 0.0, Nop);
    if x.address == None {
      return et, false;
    }
    et := et.(address := x.address.value, fcRead := x.fcRead, fcWrite := x.fcWrite);
    et := et.(blockLength := OrZero(x.blockLength), blockFactor := OrZero(x.blockFactor));
    et := et.(bytePosition := OrZero(x.bytePosition), byteLength := OrZero(x.byteLength));
    et := et.(bitPosition := OrZero(x.bitPosition), bitLength := OrZero(x.bitLength));
    ok := x.bitLength.Some?;
    et := et.(factor := OrZeroReal(x.factor), offset := OrZeroReal(x.offset));
    et := et.(lower := OrZeroReal(x.lower), upper := OrZeroReal(x.upper));
    if et.blockLength < (et.bytePosition as int + et.byteLength) % 0x100 {
      ok := false;
    }
    match x.conversion {
      case "DateTimeBCD" => et := et.(codec := DateTimeBCD);
      case "DateBCD" => et := et.(codec := DateBCD);
      case "Sec2Hour" => et := et.(codec := Sec2Duration);
      case "Sec2Minute" => et := et.(codec := Sec2Duration);
      case "HourDiffSec2Hour" => et := et.(codec := Sec2Duration);
      case "Div10" => et := et.(codec := DivMulOffset, factor := 0.1);
      case "Div100" => et := et.(codec := DivMulOffset, factor := 0.01);
      case "Div1000" => et := et.(codec := DivMulOffset, factor := 0.001);
      case "Div2" => et := et.(codec := DivMulOffset, factor := 0.5);
      case "Mult10" => et := et.(codec := DivMulOffset, factor := 10.0);
      case "Mult100" => et := et.(codec := DivMulOffset, factor := 100.0);
      case "Mult2" => et := et.(codec := DivMulOffset, factor := 2.0);
      case "Mult5" => et := et.(codec := DivMulOffset, factor := 5.0);
      case "MultOffset" =>
        et := et.(codec := DivMulOffset, factor := if et.factor == 0.0 then 1.0 else et.factor);
      case "NoConversion" =>
        if x.hasValueList {
          et := et.(codec := ValueList);
        } else if OrZero(x.mappingType) > 0 {
          et := et.(codec := match OrZero(x.mappingType)
                             case 1 => MappingTime53
                             case 2 => MappingRaster152
                             case 3 => MappingErrors
                             case _ => Nop);
        } else if et.byteLength < 5 && et.bitLength == 0 {
          et := et.(codec := DivMulOffset, factor := if et.factor == 0.0 then 1.0 else et.factor);
        } else if et.blockLength == 9 && x.isFaultHistory {
          et := et.(codec := MappingErrors);
        }
      case _ => ok := false;
    }
  }

  predicate PassesLengthCheck(block: byte, position: byte, length: byte) {
    block >= (position as int + length) % 0x100
  }

  predicate FitsBlock(block: byte, position: byte, length: byte) {
    block >= position as int + length
  }

  /** The length check computes in `uint8`: it keeps the value inside every block exactly if the sum does not wrap. */
  lemma LengthCheckIff(position: byte, length: byte)
    ensures position as int + length < 0x100 <==>
              forall block: byte :: PassesLengthCheck(block, position, length) ==> FitsBlock(block, position, length)
  {
    if position as int + length >= 0x100 {
      assert PassesLengthCheck(0xff, position, length) && !FitsBlock(0xff, position, length);
    }
  }
}
