/** What the engine delivers for which bytes: no success without an answer that says so. */
module EngineResults {
  import opened Bytes
  import opened Telegram
  import opened Link
  import opened Runs
  import opened Engine
  import opened EngineSafety

  // ------------------------------------------------------------ acceptable answers

  /** The bytes behind the length byte belong to an answer to this command with this count. */
  ghost predicate Answering(command: byte, count: byte, l: byte, tail: seq<byte>) {
    exists a: Answer :: a.Valid() && a.Length() == l && a.Tail() == tail && a.command == command && a.count == count
  }

  /** A write's answer of four bytes, too short for a count, whose checksum happens to be the count. */
  predicate CutShort(command: byte, count: byte, l: byte, tail: seq<byte>) {
    && l == 4 && |tail| == 5 && command == P300_WRITE
    && tail[0] == 0x01 && tail[1] % 0x20 == P300_WRITE && tail[4] == count && tail[4] == Checksum([l] + tail[..4])
  }

  ghost predicate Good(command: byte, count: byte, l: byte, tail: seq<byte>) {
    Answering(command, count, l, tail) || CutShort(command, count, l, tail)
  }

  function BodyOf(command: byte, count: byte, l: byte, tail: seq<byte>): seq<byte> {
    if command == P300_WRITE then [count] else if 5 <= l as int <= |tail| then tail[5..l] else []
  }

  lemma AcceptedIsGood(cmd: FsmCmd, l: byte, tail: seq<byte>)
    requires |tail| == l + 1
    ensures Accepts(cmd, l, tail) <==> Good(cmd.command, cmd.resultLen, l, tail)
    ensures Accepts(cmd, l, tail) ==>
              ParseAnswer(cmd, l, tail).body == BodyOf(cmd.command, cmd.resultLen, l, tail)
  {
    if l >= 5 {
      ParserExact(cmd, l, tail);
    } else {
      AnswersAreLong(cmd.command, cmd.resultLen, l, tail);
      ShortAccepted(cmd, l, tail);
    }
  }

  lemma AnswersAreLong(command: byte, count: byte, l: byte, tail: seq<byte>)
    ensures Answering(command, count, l, tail) ==> l >= 5
  {
  }

  lemma ShortAccepted(cmd: FsmCmd, l: byte, tail: seq<byte>)
    requires |tail| == l + 1 && l < 5
    ensures Accepts(cmd, l, tail) <==> CutShort(cmd.command, cmd.resultLen, l, tail)
    ensures Accepts(cmd, l, tail) ==> ParseAnswer(cmd, l, tail).body == [cmd.resultLen]
  {
    hide Sum;
    var telegram := [l] + tail;
    assert telegram[..|telegram| - 1] == [l] + tail[..|tail| - 1];
  }

  // --------------------------------------------------------------- one pass in P300

  predicate Succeeds(x: FsmResult) {
    x.err == None
  }

  /** The header and the tail of such an answer come over the link, each in time. */
  ghost predicate Arrives(link: seq<LinkEvent>, l: byte, tail: seq<byte>) {
    exists p: nat, q: nat ::
      && ArrivesAt(2, link, p) && BytesOf(link[..p]) == [SO3, l]
      && ArrivesAt(l as int + 1, link[p..], q) && BytesOf(link[p..][..q]) == tail
  }

  ghost predicate Collected2(link: seq<LinkEvent>, l: byte, tail: seq<byte>) {
    var c1 := Collect(2, link);
    var c2 := Collect(l as int + 1, c1.rest);
    c1.err == None && c1.bytes == [SO3, l] && c2.err == None && c2.bytes == tail
  }

  lemma ArrivesIsCollected(link: seq<LinkEvent>, l: byte, tail: seq<byte>)
    ensures Arrives(link, l, tail) <==> Collected2(link, l, tail)
  {
    hide Collect, BytesOf, Timely;
    if Collected2(link, l, tail) {
      CollectExact(2, link);
      var p: nat :| ArrivesAt(2, link, p);
      ArrivingTaken(2, link, p);
      CollectExact(l as int + 1, link[p..]);
      var q: nat :| ArrivesAt(l as int + 1, link[p..], q);
      ArrivingTaken(l as int + 1, link[p..], q);
    }
    if Arrives(link, l, tail) {
      var p: nat, q: nat :|
        && ArrivesAt(2, link, p) && BytesOf(link[..p]) == [SO3, l]
        && ArrivesAt(l as int + 1, link[p..], q) && BytesOf(link[p..][..q]) == tail;
      ArrivingTaken(2, link, p);
      ArrivingTaken(l as int + 1, link[p..], q);
    }
  }

  /** What a success looks like, and what is left behind. */
  ghost predicate SuccessOf(m: Machine, o: Pass, l: byte, tail: seq<byte>) {
    && |tail| == l + 1 && Good(m.cmd.command, m.cmd.resultLen, l, tail)
    && o.stop == None && o.next.state == RecvP300Ack && !o.next.hasCmd
    && o.actions == [Got([SO3, l]), Got(tail),
                     Delivered(FsmResult(m.cmd.id, None, BodyOf(m.cmd.command, m.cmd.resultLen, l, tail)))]
  }

  lemma RecvOnCollected(m: Machine, env: Env, l: byte, tail: seq<byte>)
    requires Collected2(m.link, l, tail)
    ensures var o := OnRecvP300(m, env);
            if Good(m.cmd.command, m.cmd.resultLen, l, tail) then SuccessOf(m, o, l, tail)
            else forall x :: Delivered(x) in o.actions ==> !Succeeds(x)
  {
    hide Collect, CollectFrom, ParseAnswer, Good, BodyOf;
    AcceptedIsGood(m.cmd, l, tail);
  }

  lemma RecvOnNothing(m: Machine, env: Env)
    requires forall l: byte, tail: seq<byte> :: !Collected2(m.link, l, tail)
    ensures forall x :: Delivered(x) in OnRecvP300(m, env).actions ==> !Succeeds(x)
  {
    hide Collect, CollectFrom, ParseAnswer;
    var c1 := Collect(2, m.link);
    if c1.err == None && c1.bytes[0] == SO3 {
      var l := c1.bytes[1];
      assert c1.bytes == [SO3, l];
      assert !Collected2(m.link, l, Collect(l as int + 1, c1.rest).bytes);
    }
  }

  /**
   * In `recvP300` a success is delivered if and only if an answer to the pending command with the pending
   * count comes over the link; it carries the answer's payload - for a write the count - and is confirmed.
   */
  lemma RecvSucceedsIff(m: Machine, env: Env)
    requires m.state == RecvP300 && !env.done && !env.linkError
    ensures var o, link := Next(m, env), m.link + env.arriving;
            (exists x :: Delivered(x) in o.actions && Succeeds(x)) <==>
            exists l: byte, tail: seq<byte> :: Arrives(link, l, tail) && Good(m.cmd.command, m.cmd.resultLen, l, tail)
    ensures var o, link := Next(m, env), m.link + env.arriving;
            forall l: byte, tail: seq<byte> :: Arrives(link, l, tail) && Good(m.cmd.command, m.cmd.resultLen, l, tail) ==>
              SuccessOf(m, o, l, tail)
  {
    hide OnRecvP300, Collected2, Arrives, Good, BodyOf;
    var link := m.link + env.arriving;
    var m1 := m.(prevstate := m.state, link := link);
    var o := OnRecvP300(m1, env);
    assert Next(m, env) == o;
    forall l: byte, tail: seq<byte>
      ensures Arrives(link, l, tail) <==> Collected2(link, l, tail)
      ensures Arrives(link, l, tail) && Good(m.cmd.command, m.cmd.resultLen, l, tail) ==> SuccessOf(m, o, l, tail)
      ensures Arrives(link, l, tail) && !Good(m.cmd.command, m.cmd.resultLen, l, tail) ==>
                forall x :: Delivered(x) in o.actions ==> !Succeeds(x)
    {
      ArrivesIsCollected(link, l, tail);
      if Collected2(link, l, tail) {
        RecvOnCollected(m1, env, l, tail);
      }
    }
    if l: byte, tail: seq<byte> :| Arrives(link, l, tail) && Good(m.cmd.command, m.cmd.resultLen, l, tail) {
      assert Delivered(o.actions[2].result) in o.actions && Succeeds(o.actions[2].result);
    } else if l: byte, tail: seq<byte> :| Arrives(link, l, tail) {
    } else {
      RecvOnNothing(m1, env);
    }
  }

  // ------------------------------------------------------------------ the refusals

  /** An answer to this command, whatever its count. */
  ghost predicate Addressed(command: byte, l: byte, tail: seq<byte>) {
    exists count: byte :: Answering(command, count, l, tail)
  }

  lemma AddressedIsParsed(cmd: FsmCmd, l: byte, tail: seq<byte>)
    requires |tail| == l + 1 && l >= 5
    ensures Addressed(cmd.command, l, tail) <==> ParseAnswer(cmd, l, tail).Answered?
    ensures !ParseAnswer(cmd, l, tail).Crashed?
    ensures Addressed(cmd.command, l, tail) && !Answering(cmd.command, cmd.resultLen, l, tail) ==>
              ParseAnswer(cmd, l, tail).err == Some(WrongLength)
  {
    var c := cmd.(resultLen := tail[4]);
    ParserExact(cmd, l, tail);
    ParserExact(c, l, tail);
    if Addressed(cmd.command, l, tail) {
      var count: byte :| Answering(cmd.command, count, l, tail);
      var a: Answer :| a.Valid() && a.Length() == l && a.Tail() == tail && a.command == cmd.command && a.count == count;
      assert tail[4] == count;
      assert Answering(c.command, c.resultLen, l, tail);
    }
    assert ParseAnswer(cmd, l, tail).Answered? ==> Accepts(c, l, tail);
    if Accepts(c, l, tail) {
      assert Answering(cmd.command, tail[4], l, tail);
    }
  }

  /** Refused: an error instead of a result, and a NAK. */
  ghost predicate Denied(m: Machine, o: Pass, next: VitoState) {
    && o.stop == None && o.next.state == next
    && |o.actions| == 3 && o.actions[0].Got? && o.actions[1].Got?
    && o.actions[2].Delivered? && o.actions[2].result.id == m.cmd.id && !Succeeds(o.actions[2].result)
  }

  /**
   * A telegram of at least five bytes that is no answer to the pending command - wrong type, wrong command
   * or wrong checksum - is refused with an error and a NAK; one with a wrong count only is an error, too,
   * but confirmed.
   */
  lemma BadAnswerIsDenied(m: Machine, e1: Env, e2: Env, l: byte, tail: seq<byte>)
    requires m.state == RecvP300 && !e1.done && !e1.linkError && !e2.done && !e2.linkError && e2.writeOk
    requires l >= 5 && Arrives(m.link + e1.arriving, l, tail)
    requires !Answering(m.cmd.command, m.cmd.resultLen, l, tail)
    ensures var o := Next(m, e1);
            var reply := if Addressed(m.cmd.command, l, tail) then ACK else NAK;
            && Denied(m, o, if reply == ACK then RecvP300Ack else RecvP300Nak)
            && Next(o.next, e2).stop == None && Next(o.next, e2).actions == [Wrote([reply])] && Next(o.next, e2).next.state == Wait
  {
    hide Collect, CollectFrom, ParseAnswer, Arrives, Answering, Addressed;
    var link := m.link + e1.arriving;
    ArrivesIsCollected(link, l, tail);
    AddressedIsParsed(m.cmd, l, tail);
    var m1 := m.(prevstate := m.state, link := link);
    DeniedOnCollected(m1, e1, l, tail);
    assert Next(m, e1) == OnRecvP300(m1, e1);
  }

  lemma DeniedOnCollected(m: Machine, env: Env, l: byte, tail: seq<byte>)
    requires l >= 5 && Collected2(m.link, l, tail) && !Answering(m.cmd.command, m.cmd.resultLen, l, tail)
    ensures Denied(m, OnRecvP300(m, env), if Addressed(m.cmd.command, l, tail) then RecvP300Ack else RecvP300Nak)
  {
    hide Collect, CollectFrom, ParseAnswer, Answering, Addressed;
    AddressedIsParsed(m.cmd, l, tail);
  }

  /** What the collection of an answer came to, if it broke off. */
  ghost predicate BrokenOff(link: seq<LinkEvent>, some: bool) {
    var c1 := Collect(2, link);
    if c1.err.Some? then some == (c1.bytes != [])
    else if c1.bytes[0] != SO3 then some
    else
      var c2 := Collect(c1.bytes[1] as int + 1, c1.rest);
      c2.err.Some? && some == (c2.bytes != [])
  }

  /**
   * An answer that breaks off, or does not start as one, is an error for its command, and the line is
   * reset; if nothing came at all the machine stops.
   */
  lemma BrokenAnswerResets(m: Machine, e1: Env, e2: Env, some: bool)
    requires m.state == RecvP300 && !e1.done && !e1.linkError && !e2.done && !e2.linkError && e2.writeOk
    requires BrokenOff(m.link + e1.arriving, some)
    ensures var o := Next(m, e1);
            if !some then o.stop.Some? && forall i :: 0 <= i < |o.actions| ==> o.actions[i].Got?
            else && o.stop == None && !o.next.hasCmd && 2 <= |o.actions| <= 3
                 && (var last := o.actions[|o.actions| - 1];
                     last.Delivered? && last.result.id == m.cmd.id && !Succeeds(last.result))
                 && Next(o.next, e2).actions == [Wrote([EOT])] && Next(o.next, e2).next.state == ResetAck
  {
    hide Collect, CollectFrom, ParseAnswer;
  }

  /** A telegram is never taken for its own result: only ACK leads on, and whatever is delivered before the answer is an error. */
  lemma AckDeliversNoSuccess(m: Machine, env: Env)
    requires m.state == SendP300Ack && !env.done && !env.linkError
    ensures var o := Next(m, env);
            && (forall x :: Delivered(x) in o.actions ==> !Succeeds(x) && x.id == m.cmd.id)
            && (o.stop == None && o.next.state == RecvP300 <==> o.actions == [Got([ACK])] && o.stop == None)
            && (forall b :: b != ACK && o.actions != [] && o.actions[0] == Got([b]) && o.stop == None ==>
                  o.actions == [Got([b]), Delivered(FsmResult(m.cmd.id, Some(if b == NAK then Nak else NoAck), []))] &&
                  o.next.state == Wait && !o.next.hasCmd)
  {
    hide Collect, CollectFrom;
    var c := Collect(1, m.link + env.arriving);
    assert c.err == None ==> c.bytes == [c.bytes[0]];
  }

  // ------------------------------------------------------- bytes out of turn, and time

  /** The byte a reset waits for comes in time. */
  ghost predicate FirstByte(link: seq<LinkEvent>, b: byte) {
    exists p: nat :: ArrivesAt(1, link, p) && BytesOf(link[..p]) == [b]
  }

  lemma FirstByteIsCollected(link: seq<LinkEvent>, b: byte)
    ensures FirstByte(link, b) <==> Collect(1, link).err == None && Collect(1, link).bytes == [b]
  {
    hide Collect, Timely, BytesOf;
    if Collect(1, link).err == None {
      CollectExact(1, link);
      var p: nat :| ArrivesAt(1, link, p);
      ArrivingTaken(1, link, p);
    }
    if FirstByte(link, b) {
      var p: nat :| ArrivesAt(1, link, p) && BytesOf(link[..p]) == [b];
      ArrivingTaken(1, link, p);
    }
  }

  /**
   * After a reset ENQ and ACK alike make the line idle; any other byte leads to the next EOT, a hundred
   * times in a row and no more; and nothing is sent without a byte.
   */
  lemma ResetGoesOn(m: Machine, e1: Env, e2: Env, b: byte)
    requires m.state == ResetAck && !e1.done && !e1.linkError && !e2.done && !e2.linkError && e2.writeOk
    requires FirstByte(m.link + e1.arriving, b)
    ensures var o := Next(m, e1);
            if b == ENQ || b == ACK then o.stop == None && o.next.state == Idle && o.next.failCount == 0
            else if m.failCount >= 100 then o.stop == Some(TooManyFails)
            else && o.stop == None && o.next.failCount == m.failCount + 1
                 && Next(o.next, e2).actions == [Wrote([EOT])] && Next(o.next, e2).next.state == ResetAck
  {
    hide Collect, CollectFrom;
    FirstByteIsCollected(m.link + e1.arriving, b);
  }

  /** A call leads from the idle line to the synchronisation, any other byte to a reset; without a byte the machine stops. */
  lemma IdleGoesOn(m: Machine, e1: Env, e2: Env, b: byte)
    requires m.state == Idle && m.canP300 && !e1.done && !e1.linkError && !e2.done && !e2.linkError && e2.writeOk
    requires FirstByte(m.link + e1.arriving, b)
    ensures var o := Next(m, e1);
            o.stop == None && o.next.lastEnq == e1.after &&
            Next(o.next, e2).actions == [Wrote(if b == ENQ then [0x16, 0x00, 0x00] else [EOT])]
  {
    hide Collect, CollectFrom;
    FirstByteIsCollected(m.link + e1.arriving, b);
  }

  /** Only ACK answers a synchronisation and starts its ten seconds; after another byte it is repeated. */
  lemma SyncIsRepeated(m: Machine, e1: Env, e2: Env, b: byte)
    requires m.state == WaitAck && m.failCount < 3 && !e1.done && !e1.linkError && !e2.done && !e2.linkError && e2.writeOk
    requires FirstByte(m.link + e1.arriving, b)
    ensures var o := Next(m, e1);
            && o.stop == None && o.next.lastSyn == e1.after && o.next.canP300 == m.canP300
            && (b == ACK ==> o.next.state == Wait)
            && (b != ACK ==> Next(o.next, e2).actions == [Wrote([0x16, 0x00, 0x00])] && Next(o.next, e2).next.state == WaitAck)
  {
    hide Collect, CollectFrom;
    FirstByteIsCollected(m.link + e1.arriving, b);
  }

  /** When it is told to end, or the link fails, the machine stops without another word, in whatever state. */
  lemma EndsAtOnce(m: Machine, env: Env)
    requires env.done || env.linkError
    ensures Next(m, env).stop.Some? && Next(m, env).actions == []
  {
  }

  /**
   * In KW a command is sent within a second and a half of a call, and otherwise only after the next one;
   * then SOH comes first and the telegram at once.
   */
  lemma KwWaitsForCall(m: Machine, e1: Env, e2: Env, e3: Env, b: byte)
    requires m.state == Idle && !m.canP300 && m.hasCmd && Encodable(m.cmd)
    requires !e1.done && !e1.linkError && !e2.done && !e2.linkError && e2.writeOk && !e3.done && !e3.linkError && e3.writeOk
    requires e1.now - m.lastEnq > 1500 ==> FirstByte(m.link + e1.arriving, b)
    ensures var o := Next(m, e1);
            && o.stop == None
            && (e1.now - m.lastEnq > 1500 && b != ENQ ==> o.actions == [Got([b])] && Next(o.next, e2).actions == [Wrote([EOT])])
            && (e1.now - m.lastEnq <= 1500 ==> o.actions == [] && o.next.link == m.link + e1.arriving)
            && (e1.now - m.lastEnq <= 1500 || b == ENQ ==>
                  var o2 := Next(o.next, e2);
                  && o2.actions == [Wrote([0x01])]
                  && var o3 := Next(o2.next, e3);
                     |o3.actions| == 1 && o3.actions[0].Wrote? && PrepareKw(m.cmd).telegram == Some(o3.actions[0].bytes))
  {
    hide Collect, CollectFrom, PrepareKw, PrepareP300;
    if e1.now - m.lastEnq > 1500 {
      FirstByteIsCollected(m.link + e1.arriving, b);
    }
    KwIsEncoded(m.cmd);
  }

  /** In KW an idle machine without a command waits from call to call, and resets the line after any other byte. */
  lemma KwIdles(m: Machine, e1: Env, e2: Env, b: byte)
    requires m.state == Idle && !m.canP300 && !m.hasCmd && e1.poll == NoCmd
    requires !e1.done && !e1.linkError && !e2.done && !e2.linkError && e2.writeOk
    requires FirstByte(m.link + e1.arriving, b)
    ensures var o := Next(m, e1);
            && o.stop == None && o.actions == [Got([b])] && o.next.lastEnq == e1.after && !o.next.hasCmd
            && (b == ENQ ==> o.next.state == Idle)
            && (b != ENQ ==> Next(o.next, e2).actions == [Wrote([EOT])])
  {
    hide Collect, CollectFrom;
    FirstByteIsCollected(m.link + e1.arriving, b);
  }

  lemma KwIsEncoded(cmd: FsmCmd)
    ensures PrepareKw(cmd).telegram.Some? <==> Encodable(cmd)
  {
  }

  /** In KW a command that cannot be encoded is answered with an error, and nothing is sent for it. */
  lemma KwRefusesUnencodable(m: Machine, env: Env)
    requires m.state == SendKw && !Encodable(m.cmd) && !env.done && !env.linkError
    ensures var o := Next(m, env);
            o.stop == None && o.next.state == Idle && !o.next.hasCmd &&
            o.actions == [Delivered(FsmResult(m.cmd.id, Some(NotImplemented), []))]
  {
    KwIsEncoded(m.cmd);
    PreparedId(m.cmd);
    hide PrepareKw;
  }

  /** A byte that comes while the machine waits for commands is dropped, and the line is reset. */
  lemma StrayByteResets(m: Machine, e1: Env, e2: Env, silences: nat, b: byte)
    requires m.state == Wait && !m.hasCmd && e1.now - m.lastSyn <= 10_000 && e1.source == FromLink
    requires !e1.done && !e1.linkError && !e2.done && !e2.linkError && e2.writeOk
    requires var link := m.link + e1.arriving;
             silences < |link| && link[silences] == Byte(b) && forall i :: 0 <= i < silences ==> link[i].Silence?
    ensures var o := Next(m, e1);
            && o.stop == None && o.next.link == (m.link + e1.arriving)[silences + 1..]
            && Next(o.next, e2).actions == [Wrote([EOT])] && Next(o.next, e2).next.state == ResetAck
  {
    BehindSilences(m.link + e1.arriving, silences);
    hide AfterNextEvent;
  }

  lemma {:induction false} BehindSilences(link: seq<LinkEvent>, n: nat)
    requires n < |link| && link[n].Byte? && forall i :: 0 <= i < n ==> link[i].Silence?
    ensures AfterNextEvent(link) == Some(link[n + 1..])
    decreases n
  {
    if n > 0 {
      BehindSilences(link[1..], n - 1);
      assert link[1..][n..] == link[n + 1..];
    }
  }

  /** More than ten seconds after the last synchronisation another one comes before anything else, also before a command that waits. */
  lemma StaleSessionIsRenewed(m: Machine, e1: Env, e2: Env)
    requires m.state == Wait && e1.now - m.lastSyn > 10_000
    requires !e1.done && !e1.linkError && !e2.done && !e2.linkError && e2.writeOk
    ensures var o := Next(m, e1);
            o.stop == None && o.actions == [] && o.next.hasCmd == m.hasCmd && o.next.cmd == m.cmd &&
            Next(o.next, e2).actions == [Wrote(SYNC)] && Next(o.next, e2).next.state == WaitAck
  {
  }

  /** A command is only ever sent in a session that was synchronised at most ten seconds before it was taken up. */
  lemma SentInFreshSession(m: Machine, env: Env)
    requires m.state != SendP300 && Next(m, env).stop == None && Next(m, env).next.state == SendP300
    ensures m.state == Wait && env.now - m.lastSyn <= 10_000 && Next(m, env).next.hasCmd
  {
    hide Collect, CollectFrom, PrepareKw, PrepareP300;
  }

  // ----------------------------------------------------------------- one pass in KW

  /** The bytes of a KW answer: as many as expected, and a zero for a write. */
  predicate GoodKw(command: byte, count: byte, bytes: seq<byte>) {
    |bytes| == count as int && (command == KW_WRITE ==> bytes != [] && bytes[0] == 0x00)
  }

  ghost predicate SuccessOfKw(m: Machine, o: Pass, bytes: seq<byte>) {
    var x := FsmResult(m.cmd.id, None, if m.cmd.command == KW_WRITE then [|m.cmd.args| % 0x100] else bytes);
    && GoodKw(m.cmd.command, m.cmd.resultLen, bytes)
    && (o.actions == [Got(bytes), Delivered(x)] ||
        (|o.actions| == 3 && o.actions[0] == Got(bytes) && o.actions[1].Accepted? && o.actions[2] == Delivered(x)))
  }

  /** In `recvKw` a success is delivered if and only if as many bytes as expected come, for a write a zero, and the command channel is open. */
  lemma KwSucceedsIff(m: Machine, env: Env)
    requires m.state == RecvKw && !env.done && !env.linkError
    ensures var o, c := Next(m, env), Collect(m.cmd.resultLen, m.link + env.arriving);
            && ((exists x :: Delivered(x) in o.actions && Succeeds(x)) <==>
                c.err == None && GoodKw(m.cmd.command, m.cmd.resultLen, c.bytes) && !env.poll.ClosedCmds?)
            && (forall x :: Delivered(x) in o.actions && Succeeds(x) ==> SuccessOfKw(m, o, c.bytes))
  {
    hide Collect, CollectFrom;
    var link := m.link + env.arriving;
    var c := Collect(m.cmd.resultLen, link);
    var o := OnRecvKw(m.(prevstate := m.state, link := link), env);
    assert Next(m, env) == o;
    if c.err == None && GoodKw(m.cmd.command, m.cmd.resultLen, c.bytes) && !env.poll.ClosedCmds? {
      assert Delivered(o.actions[|o.actions| - 1].result) in o.actions;
    }
  }

  /** No other state delivers a success. */
  lemma OtherStatesDeliverNone(m: Machine, env: Env)
    requires m.state != RecvP300 && m.state != RecvKw
    ensures forall x :: Delivered(x) in Next(m, env).actions ==> !Succeeds(x)
  {
    hide Collect, CollectFrom, PrepareP300, PrepareKw;
  }

  // ------------------------------------------------------------------- whole runs

  /** How a command reads in P300, and the count its answer must have. */
  function P300Command(cmd: FsmCmd): byte {
    if cmd.command == KW_READ then P300_READ else if cmd.command == KW_WRITE then P300_WRITE else cmd.command
  }

  function P300Count(cmd: FsmCmd): byte {
    if P300Command(cmd) == P300_WRITE then |cmd.args| % 0x100 else cmd.resultLen
  }

  predicate WritesKw(cmd: FsmCmd) {
    cmd.command == KW_WRITE || cmd.command == P300_WRITE
  }

  lemma PreparedWants(cmd: FsmCmd)
    ensures PrepareP300(cmd).cmd.command == P300Command(cmd) && PrepareP300(cmd).cmd.resultLen == P300Count(cmd)
    ensures PrepareKw(cmd).cmd.args == cmd.args && (PrepareKw(cmd).cmd.command == KW_WRITE <==> WritesKw(cmd))
    ensures PrepareKw(cmd).cmd.resultLen == if WritesKw(cmd) then 1 else cmd.resultLen
  {
  }

  /** Just before the result at i an answer to the command was collected, header and tail. */
  ghost predicate EarnedP300(trace: seq<Action>, i: nat, cmd: FsmCmd, body: seq<byte>)
    requires i < |trace|
  {
    && i >= 2 && trace[i - 2].Got? && trace[i - 1].Got? && |trace[i - 2].bytes| == 2 && trace[i - 2].bytes[0] == SO3
    && var l, tail := trace[i - 2].bytes[1], trace[i - 1].bytes;
       |tail| == l as int + 1 && Good(P300Command(cmd), P300Count(cmd), l, tail) && body == BodyOf(P300Command(cmd), P300Count(cmd), l, tail)
  }

  /** Just before the result at i - but for the command accepted meanwhile - the expected bytes were collected. */
  ghost predicate EarnedKw(trace: seq<Action>, i: nat, cmd: FsmCmd, body: seq<byte>)
    requires i < |trace|
  {
    exists j: nat ::
      && j < i <= j + 2 && trace[j].Got?
      && (if WritesKw(cmd) then trace[j].bytes == [0x00] && body == [|cmd.args| % 0x100]
          else |trace[j].bytes| == cmd.resultLen as int && body == trace[j].bytes)
  }

  /** The success at i answers the oldest command without an answer, for bytes that say so. */
  ghost predicate Earned(trace: seq<Action>, i: nat)
    requires i < |trace| && trace[i].Delivered?
  {
    var n, x := |Deliveries(trace[..i])|, trace[i].result;
    n < |Acceptances(trace[..i])| &&
    var cmd := Acceptances(trace[..i])[n];
    x.id == cmd.id && (EarnedP300(trace, i, cmd, x.body) || EarnedKw(trace, i, cmd, x.body))
  }

  ghost predicate AllEarned(trace: seq<Action>) {
    forall i :: 0 <= i < |trace| && trace[i].Delivered? && Succeeds(trace[i].result) ==> Earned(trace, i)
  }

  /** The command the machine holds, in the words of the conversation. */
  lemma HeldCommand(m: Machine, past: seq<Action>, s: Session)
    requires Sound(m, Conversation(past), s) && m.state in {RecvP300, RecvKw}
    ensures var n := |Deliveries(past)|;
            && n < |Acceptances(past)|
            && var cmd := Acceptances(past)[n];
               && m.cmd.id == cmd.id
               && (m.state == RecvP300 ==> m.cmd.command == P300Command(cmd) && m.cmd.resultLen == P300Count(cmd))
               && (m.state == RecvKw ==>
                     && m.cmd.args == cmd.args && (m.cmd.command == KW_WRITE <==> WritesKw(cmd))
                     && m.cmd.resultLen == if WritesKw(cmd) then 1 else cmd.resultLen)
  {
    Conservation(past);
    var n := |Deliveries(past)|;
    var cmd := Conversation(past).queue[0];
    assert Acceptances(past)[n..][0] == cmd;
    PreparedId(cmd);
    PreparedWants(cmd);
    hide PrepareKw, PrepareP300;
  }

  lemma EarnedInPass(m: Machine, env: Env, past: seq<Action>)
    requires Sound(m, Conversation(past), SessionOf(past)) && AllEarned(past)
    ensures AllEarned(past + Next(m, env).actions)
  {
    hide Next, Earned, Conversation, SessionOf, Sound;
    var o := Next(m, env);
    var trace := past + o.actions;
    forall i | 0 <= i < |trace| && trace[i].Delivered? && Succeeds(trace[i].result)
      ensures Earned(trace, i)
    {
      if i < |past| {
        EarnedLater(past, o.actions, i);
      } else {
        assert o.actions[i - |past|] == trace[i];
        NewlyEarned(m, env, past, trace[i].result, i - |past|);
      }
    }
  }

  lemma EarnedLater(past: seq<Action>, actions: seq<Action>, i: nat)
    requires i < |past| && past[i].Delivered? && Earned(past, i)
    ensures Earned(past + actions, i)
  {
    hide Good, BodyOf;
    var trace := past + actions;
    assert trace[..i] == past[..i];
    var cmd, x := Acceptances(past[..i])[|Deliveries(past[..i])|], past[i].result;
    if EarnedKw(past, i, cmd, x.body) {
      var j: nat :|
        && j < i <= j + 2 && past[j].Got?
        && (if WritesKw(cmd) then past[j].bytes == [0x00] && x.body == [|cmd.args| % 0x100]
            else |past[j].bytes| == cmd.resultLen as int && x.body == past[j].bytes);
      assert trace[j] == past[j];
    }
  }

  lemma NewlyEarned(m: Machine, env: Env, past: seq<Action>, x: FsmResult, k: nat)
    requires Sound(m, Conversation(past), SessionOf(past))
    requires k < |Next(m, env).actions| && Next(m, env).actions[k] == Delivered(x) && Succeeds(x)
    ensures Earned(past + Next(m, env).actions, |past| + k)
  {
    var o := Next(m, env);
    assert Delivered(x) in o.actions;
    assert !env.done && !env.linkError;
    if m.state == RecvP300 {
      HeldCommand(m, past, SessionOf(past));
      P300Earned(m, env, past, x, k);
    } else if m.state == RecvKw {
      HeldCommand(m, past, SessionOf(past));
      KwEarned(m, env, past, x, k);
    } else {
      OtherStatesDeliverNone(m, env);
    }
  }

  /** Collecting bytes changes neither list, and accepting a command only appends it. */
  lemma StillOldest(past: seq<Action>, between: seq<Action>)
    requires |between| <= 2 && forall i :: 0 <= i < |between| ==> between[i].Got? || between[i].Accepted?
    requires |Deliveries(past)| < |Acceptances(past)|
    ensures Deliveries(past + between) == Deliveries(past)
    ensures |Acceptances(past)| <= |Acceptances(past + between)|
    ensures Acceptances(past + between)[|Deliveries(past)|] == Acceptances(past)[|Deliveries(past)|]
  {
    AcceptancesConcat(past, between);
    DeliveriesConcat(past, between);
    NothingDelivered(between);
  }

  lemma {:induction false} NothingDelivered(actions: seq<Action>)
    requires forall i :: 0 <= i < |actions| ==> !actions[i].Delivered?
    ensures Deliveries(actions) == []
  {
    if actions != [] {
      NothingDelivered(actions[..|actions| - 1]);
    }
  }

  lemma P300Earned(m: Machine, env: Env, past: seq<Action>, x: FsmResult, k: nat)
    requires m.state == RecvP300 && !env.done && !env.linkError
    requires k < |Next(m, env).actions| && Next(m, env).actions[k] == Delivered(x) && Succeeds(x)
    requires |Deliveries(past)| < |Acceptances(past)|
    requires var cmd := Acceptances(past)[|Deliveries(past)|];
             m.cmd.id == cmd.id && m.cmd.command == P300Command(cmd) && m.cmd.resultLen == P300Count(cmd)
    ensures Earned(past + Next(m, env).actions, |past| + k)
  {
    hide Next, Good, BodyOf, Arrives, Acceptances, Deliveries;
    var o := Next(m, env);
    assert Delivered(x) in o.actions;
    RecvSucceedsIff(m, env);
    var l: byte, tail: seq<byte> :| Arrives(m.link + env.arriving, l, tail) && Good(m.cmd.command, m.cmd.resultLen, l, tail);
    assert SuccessOf(m, o, l, tail);
    assert k == 2;
    var trace := past + o.actions;
    var cmd := Acceptances(past)[|Deliveries(past)|];
    assert trace[..|past| + 2] == past + o.actions[..2];
    StillOldest(past, o.actions[..2]);
    assert trace[|past|] == o.actions[0] && trace[|past| + 1] == o.actions[1];
    assert EarnedP300(trace, |past| + 2, cmd, x.body);
  }

  lemma KwEarned(m: Machine, env: Env, past: seq<Action>, x: FsmResult, k: nat)
    requires m.state == RecvKw && !env.done && !env.linkError
    requires k < |Next(m, env).actions| && Next(m, env).actions[k] == Delivered(x) && Succeeds(x)
    requires |Deliveries(past)| < |Acceptances(past)|
    requires var cmd := Acceptances(past)[|Deliveries(past)|];
             && m.cmd.id == cmd.id && m.cmd.args == cmd.args && (m.cmd.command == KW_WRITE <==> WritesKw(cmd))
             && m.cmd.resultLen == if WritesKw(cmd) then 1 else cmd.resultLen
    ensures Earned(past + Next(m, env).actions, |past| + k)
  {
    hide Next, Collect, Acceptances, Deliveries;
    var o := Next(m, env);
    assert Delivered(x) in o.actions;
    KwSucceedsIff(m, env);
    var bytes := Collect(m.cmd.resultLen, m.link + env.arriving).bytes;
    assert SuccessOfKw(m, o, bytes);
    var trace := past + o.actions;
    var cmd := Acceptances(past)[|Deliveries(past)|];
    assert k == |o.actions| - 1;
    assert trace[..|past| + k] == past + o.actions[..k];
    StillOldest(past, o.actions[..k]);
    assert trace[|past|] == o.actions[0] == Got(bytes);
    assert WritesKw(cmd) ==> bytes == [0x00];
    assert EarnedKw(trace, |past| + k, cmd, x.body);
  }

  /**
   * No success without its bytes: over every run, in both modes, each result without error answers the
   * oldest command without an answer, and just before it the bytes of an answer to that command, with
   * that count, were collected; its body is what they carry.
   */
  lemma SuccessesAreEarned(canP300: bool, now: int, envs: seq<Env>)
    ensures AllEarned(Run(Next, Start(canP300, now), envs).actions)
  {
    hide Next, AllEarned, Sound, Conversation, SessionOf;
    var inv := (m: Machine, past: seq<Action>) => Sound(m, Conversation(past), SessionOf(past)) && AllEarned(past);
    var fin := (m: Machine, past: seq<Action>) => AllEarned(past);
    forall m, past, env | inv(m, past)
      ensures Kept(Next(m, env), past, inv, fin)
    {
      NextKeepsPast(m, env, past);
      EarnedInPass(m, env, past);
    }
    StartEarned(canP300, now);
    RunKeeps(Next, inv, fin, Start(canP300, now), [], envs);
    assert [] + Run(Next, Start(canP300, now), envs).actions == Run(Next, Start(canP300, now), envs).actions;
  }

  lemma StartEarned(canP300: bool, now: int)
    ensures Sound(Start(canP300, now), Conversation([]), SessionOf([])) && AllEarned([])
  {
  }
}
