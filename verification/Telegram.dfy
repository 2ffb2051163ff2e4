/** Commands, results, request telegrams and answer telegrams. */
module Telegram {
  import opened Bytes

  const NUL: byte := 0x00
  const SOH: byte := 0x01
  const EOT: byte := 0x04
  const ENQ: byte := 0x05
  const ACK: byte := 0x06
  const NAK: byte := 0x15
  const SYN: byte := 0x16
  const SO3: byte := 0x41

  const P300_READ: byte := 0x01
  const P300_WRITE: byte := 0x02
  const KW_READ: byte := 0xf7
  const KW_WRITE: byte := 0xf4

  const READ_CMDS: set<byte> := {P300_READ, KW_READ, 0xc7, 0xcb, 0xae, 0xc5, 0x6e, 0x9e, 0x33, 0x43}

  // The bit mask `& 0x1f` is written `% 0x20` throughout.
  predicate IsReadCmd(c: byte) {
    c in READ_CMDS || c % 0x20 == P300_READ
  }

  type Uuid = nat

  datatype FsmCmd = FsmCmd(id: Uuid, command: byte, address: AddrBytes, args: seq<byte>, resultLen: byte)

  datatype Error =
    | TimedOut
    | Eof
    | NotImplemented
    | Nak
    | NoAck
    | NoHeader
    | BadStartByte
    | NoTelegram
    | WrongType
    | WrongCommand
    | BadChecksum
    | WrongLength
    | WriteRefused
    | ClosedChannel

  datatype FsmResult = FsmResult(id: Uuid, err: Option<Error>, body: seq<byte>)

  // ---------------------------------------------------------------- checksum

  function Sum(b: seq<byte>): nat {
    if b == [] then 0 else b[0] + Sum(b[1..])
  }

  function Checksum(b: seq<byte>): byte {
    Sum(b) % 0x100
  }

  lemma {:induction false} SumConcat(a: seq<byte>, b: seq<byte>)
    ensures Sum(a + b) == Sum(a) + Sum(b)
  {
    if a == [] {
      assert a + b == b;
    } else {
      SumConcat(a[1..], b);
      assert (a + b)[1..] == a[1..] + b;
    }
  }

  lemma SumUpdate(b: seq<byte>, k: nat, v: byte)
    requires k < |b|
    ensures Sum(b[k := v]) == Sum(b) - b[k] + v
  {
    SumConcat(b[..k], b[k..]);
    SumConcat(b[..k], [v] + b[k + 1..]);
    assert b == b[..k] + b[k..];
    assert b[k := v] == b[..k] + ([v] + b[k + 1..]);
    assert b[k..][1..] == b[k + 1..] == ([v] + b[k + 1..])[1..];
  }

  lemma NoChecksum()
    ensures Checksum([]) == 0
  {
  }

  lemma ChecksumNext(b: seq<byte>, i: nat)
    requires i < |b|
    ensures Checksum(b[..i + 1]) == (Checksum(b[..i]) + b[i]) % 0x100
  {
    SumConcat(b[..i], [b[i]]);
    assert b[..i + 1] == b[..i] + [b[i]];
    assert Sum([b[i]]) == b[i] + Sum([]);
  }

  /** The accumulating loop over a `byte`, which wraps at every addition. */
  method Crc8(b: seq<byte>) returns (crc: byte)
    ensures crc == Checksum(b)
  {
    hide Checksum;
    crc := 0;
    NoChecksum();
    assert b[..0] == [];
    for i := 0 to |b|
      invariant crc == Checksum(b[..i])
    {
      ChecksumNext(b, i);
      crc := (crc + b[i]) % 0x100;
    }
    assert b[..|b|] == b;
  }

  // ------------------------------------------------------- request telegrams

  /** The command as `prepareCmd` leaves it, and the telegram unless it is refused. */
  datatype Prepared = Prepared(cmd: FsmCmd, telegram: Option<seq<byte>>)

  function PrepareP300(cmd: FsmCmd): Prepared {
    var c :=
      if cmd.command == KW_READ then cmd.(command := P300_READ)
      else if cmd.command == KW_WRITE then cmd.(command := P300_WRITE)
      else cmd;
    if c.command == P300_READ then
      var b := [SO3, 5, 0x00, 0x01, c.address.hi, c.address.lo, c.resultLen];
      Prepared(c, Some(b + [Checksum(b[1..])]))
    else if c.command == P300_WRITE then
      var n: byte := |c.args| % 0x100;
      var b := [SO3, (|c.args| + 5) % 0x100, 0x00, 0x02, c.address.hi, c.address.lo, n] + c.args;
      Prepared(c.(resultLen := n), Some(b + [Checksum(b[1..])]))
    else
      Prepared(c, None)
  }

  function PrepareKw(cmd: FsmCmd): Prepared {
    var c :=
      if cmd.command == P300_READ then cmd.(command := KW_READ)
      else if cmd.command == P300_WRITE then cmd.(command := KW_WRITE)
      else cmd;
    if c.command == KW_READ then
      Prepared(c, Some([c.command, c.address.hi, c.address.lo, c.resultLen]))
    else if c.command == KW_WRITE then
      Prepared(c.(resultLen := 1), Some([c.command, c.address.hi, c.address.lo, |c.args| % 0x100] + c.args))
    else
      Prepared(c, None)
  }

  predicate Encodable(cmd: FsmCmd) {
    cmd.command in {P300_READ, P300_WRITE, KW_READ, KW_WRITE}
  }

  /** What a device understands from a P300 request, read off the framing alone. */
  datatype Request = ReadRequest(address: AddrBytes, count: byte) | WriteRequest(address: AddrBytes, data: seq<byte>)

  function DecodeRequest(t: seq<byte>): Option<Request> {
    if |t| < 8 || t[0] != SO3 || |t| - 3 != t[1] || t[2] != 0x00
       || t[|t| - 1] != Checksum(t[1..|t| - 1]) then None
    else if t[3] == P300_READ && t[1] == 5 then Some(ReadRequest(AddrBytes(t[4], t[5]), t[6]))
    else if t[3] == P300_WRITE && t[1] - 5 == t[6] as int then Some(WriteRequest(AddrBytes(t[4], t[5]), t[7..|t| - 1]))
    else None
  }

  function RequestOf(cmd: FsmCmd): Request {
    if cmd.command in {P300_READ, KW_READ} then ReadRequest(cmd.address, cmd.resultLen)
    else WriteRequest(cmd.address, cmd.args)
  }

  /** A device recovers the request exactly when the arguments fit the one-byte length field. */
  lemma RequestRoundTrip(cmd: FsmCmd)
    requires Encodable(cmd)
    ensures var t := PrepareP300(cmd).telegram;
            t.Some? &&
            (DecodeRequest(t.value) == Some(RequestOf(cmd)) <==>
             cmd.command in {P300_READ, KW_READ} || |cmd.args| <= 250)
  {
    var t := PrepareP300(cmd).telegram.value;
    var b := t[..|t| - 1];
    assert t == b + [t[|t| - 1]];
    assert b[1..] == t[1..|t| - 1];
    if cmd.command in {P300_WRITE, KW_WRITE} {
      assert t[7..|t| - 1] == cmd.args;
      assert |t| == |cmd.args| + 8;
    }
  }

  /** The same for a KW request, which has neither length nor checksum. */
  function DecodeKwRequest(t: seq<byte>): Option<Request> {
    if |t| < 4 then None
    else if t[0] == KW_READ && |t| == 4 then Some(ReadRequest(AddrBytes(t[1], t[2]), t[3]))
    else if t[0] == KW_WRITE && |t| == 4 + t[3] as int then Some(WriteRequest(AddrBytes(t[1], t[2]), t[4..]))
    else None
  }

  /** A device recovers the KW request exactly when the number of arguments fits its byte. */
  lemma KwRequestRoundTrip(cmd: FsmCmd)
    requires Encodable(cmd)
    ensures var t := PrepareKw(cmd).telegram;
            t.Some? &&
            (DecodeKwRequest(t.value) == Some(RequestOf(cmd)) <==> cmd.command in {P300_READ, KW_READ} || |cmd.args| <= 0xff)
  {
    var t := PrepareKw(cmd).telegram.value;
    if cmd.command in {P300_WRITE, KW_WRITE} {
      assert t[4..] == cmd.args;
      assert |t| == |cmd.args| + 4;
    }
  }

  // -------------------------------------------------------- answer telegrams

  datatype Parsed = Crashed | Refused(reason: Error) | Answered(err: Option<Error>, body: seq<byte>)

  /**
   * What the engine makes of an answer of length byte `l` whose remaining bytes, checksum included,
   * are `tail`. `Crashed` stands for Go's index panic on a telegram that is too short.
   */
  function ParseAnswer(cmd: FsmCmd, l: byte, tail: seq<byte>): Parsed
    requires |tail| == l + 1
  {
    if tail[0] != 0x01 then Refused(WrongType)
    else if |tail| < 2 then Crashed
    else if tail[1] % 0x20 != cmd.command then Refused(WrongCommand)
    else
      var telegram := [l] + tail;
      if telegram[|telegram| - 1] != Checksum(telegram[..|telegram| - 1]) then Refused(BadChecksum)
      else if |tail| < 5 then Crashed
      else
        var err := if tail[4] != cmd.resultLen then Some(WrongLength) else None;
        if cmd.command != P300_WRITE then
          if |telegram| < 7 then Crashed else Answered(err, telegram[6..|telegram| - 1])
        else
          Answered(err, [telegram[5]])
  }

  predicate Accepts(cmd: FsmCmd, l: byte, tail: seq<byte>)
    requires |tail| == l + 1
  {
    var p := ParseAnswer(cmd, l, tail);
    p.Answered? && p.err == None
  }

  /** The framing of an answer: any sequence bits above the command, any address, a payload. */
  datatype Answer = Answer(seqBits: nat, command: byte, address: AddrBytes, count: byte, payload: seq<byte>) {
    predicate Valid() {
      seqBits < 8 && command < 0x20 && |payload| <= 250
    }

    function Length(): byte
      requires Valid()
    {
      5 + |payload|
    }

    function Content(): seq<byte>
      requires Valid()
    {
      [0x01, seqBits * 0x20 + command, address.hi, address.lo, count] + payload
    }

    /** Everything after the length byte. */
    function Tail(): seq<byte>
      requires Valid()
    {
      Content() + [Checksum([Length()] + Content())]
    }
  }

  /** The answer an accepted tail spells out. */
  function AnswerOf(tail: seq<byte>): Answer
    requires |tail| >= 6
  {
    Answer(tail[1] / 0x20, tail[1] % 0x20, AddrBytes(tail[2], tail[3]), tail[4], tail[5..|tail| - 1])
  }

  /**
   * The accepted telegrams are exactly those an answer builder of the same framing produces
   * for the pending command with the expected count, and the body is the payload
   * (for a write: the count).
   */
  lemma ParserExact(cmd: FsmCmd, l: byte, tail: seq<byte>)
    requires |tail| == l + 1 && l >= 5
    ensures Accepts(cmd, l, tail) <==>
              exists a: Answer :: a.Valid() && a.Length() == l && a.Tail() == tail &&
                                  a.command == cmd.command && a.count == cmd.resultLen
    ensures Accepts(cmd, l, tail) ==>
              ParseAnswer(cmd, l, tail).body ==
              if cmd.command == P300_WRITE then [cmd.resultLen] else AnswerOf(tail).payload
    ensures !ParseAnswer(cmd, l, tail).Crashed?
  {
    var telegram := [l] + tail;
    assert telegram[..|telegram| - 1] == [l] + tail[..|tail| - 1];
    if Accepts(cmd, l, tail) {
      var a := AnswerOf(tail);
      assert a.Valid() && a.Length() == l;
      assert a.Content() == tail[..|tail| - 1];
      assert a.Tail() == tail;
      assert telegram[6..|telegram| - 1] == a.payload;
    }
    if a: Answer :| a.Valid() && a.Length() == l && a.Tail() == tail &&
                    a.command == cmd.command && a.count == cmd.resultLen {
      AnswerParses(cmd, a);
    }
  }

  /** Parsing inverts building, for every payload. */
  lemma AnswerParses(cmd: FsmCmd, a: Answer)
    requires a.Valid() && a.command == cmd.command
    ensures ParseAnswer(cmd, a.Length(), a.Tail()) ==
            Answered(if a.count != cmd.resultLen then Some(WrongLength) else None,
                     if cmd.command == P300_WRITE then [a.count] else a.payload)
  {
    var tail := a.Tail();
    var telegram := [a.Length()] + tail;
    assert telegram[..|telegram| - 1] == [a.Length()] + a.Content();
    assert telegram[6..|telegram| - 1] == a.payload;
    assert (a.seqBits * 0x20 + a.command) % 0x20 == a.command;
  }

  /** No single changed byte after the length byte goes unnoticed, whatever the length. */
  lemma SingleByteCorruption(cmd: FsmCmd, l: byte, tail: seq<byte>, k: nat, v: byte)
    requires |tail| == l + 1 && k < |tail| && v != tail[k]
    requires ParseAnswer(cmd, l, tail).Answered?
    ensures ParseAnswer(cmd, l, tail[k := v]).Refused?
  {
    hide Sum;
    var telegram, bad := [l] + tail, [l] + tail[k := v];
    var n := |telegram| - 1;
    if k == n - 1 {
      assert bad[..n] == telegram[..n];
    } else {
      OneByteOff(telegram[..n], k + 1, v);
      assert bad[..n] == telegram[..n][k + 1 := v] && bad[n] == telegram[n];
    }
    hide Checksum;
  }

  lemma OneByteOff(b: seq<byte>, k: nat, v: byte)
    requires k < |b| && v != b[k]
    ensures Checksum(b[k := v]) != Checksum(b)
  {
    SumUpdate(b, k, v);
  }

  /** The length bytes for which some tail makes the parser index past the telegram. */
  predicate CanCrash(cmd: FsmCmd, l: byte) {
    l == 0 || (cmd.command < 0x20 && (l in {2, 3} || (l == 1 && cmd.command == 2) || (l == 4 && cmd.command != P300_WRITE)))
  }

  lemma CrashExact(cmd: FsmCmd, l: byte)
    ensures CanCrash(cmd, l) <==>
              exists tail: seq<byte> :: |tail| == l + 1 && ParseAnswer(cmd, l, tail).Crashed?
  {
    hide Checksum;
    SumOfOnes();
    if CanCrash(cmd, l) {
      if l == 0 {
        assert ParseAnswer(cmd, l, [0x01]).Crashed?;
      } else if l == 1 {
        assert [l] + [0x01, 2] == [1, 1, 2] && [1, 1, 2][..2] == [1, 1];
        assert ParseAnswer(cmd, l, [0x01, 2]).Crashed?;
      } else {
        CrashesShort(cmd, l, [0x01, cmd.command, 0, 0][..l]);
      }
    }
    if tail: seq<byte> :| |tail| == l + 1 && ParseAnswer(cmd, l, tail).Crashed? {
      if l == 1 {
        assert ([l] + tail)[..2] == [1, 1];
      }
    }
  }

  /** With the right checksum behind it a content that is too short is parsed beyond its end. */
  lemma CrashesShort(cmd: FsmCmd, l: byte, content: seq<byte>)
    requires 2 <= l <= 4 && (l == 4 ==> cmd.command != P300_WRITE) && cmd.command < 0x20
    requires |content| == l as int && content[0] == 0x01 && content[1] == cmd.command
    ensures exists tail: seq<byte> :: |tail| == l + 1 && ParseAnswer(cmd, l, tail).Crashed?
  {
    hide Checksum;
    var tail := content + [Checksum([l] + content)];
    var telegram := [l] + tail;
    assert telegram[..|telegram| - 1] == [l] + content;
    assert ParseAnswer(cmd, l, tail).Crashed?;
  }

  lemma SumOfOnes()
    ensures Checksum([1, 1]) == 2
  {
    assert Sum([1 as byte]) == 1 + Sum([1 as byte][1..]);
    assert [1 as byte, 1][1..] == [1];
  }
}
