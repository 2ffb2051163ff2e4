/** What every run of the engine keeps: the conversation with the callers and the session with the controller. */
module EngineSafety {
  import opened Bytes
  import opened Telegram
  import opened Link
  import opened Runs
  import opened Engine

  // ------------------------------------------- the conversation with the callers

  /**
   * Accepted commands are answered one by one and in order; the telegram of the oldest one may have
   * been written, once.
   */
  datatype Talk = Talk(queue: seq<FsmCmd>, sent: bool) | Broken

  const SILENT := Talk([], false)

  predicate IsP300Telegram(b: seq<byte>) {
    b != [] && b[0] == SO3
  }

  predicate IsKwTelegram(b: seq<byte>) {
    b != [] && (b[0] == KW_READ || b[0] == KW_WRITE)
  }

  predicate IsTelegram(a: Action) {
    a.Wrote? && (IsP300Telegram(a.bytes) || IsKwTelegram(a.bytes))
  }

  predicate Spells(b: seq<byte>, cmd: FsmCmd) {
    Some(b) == PrepareP300(cmd).telegram || Some(b) == PrepareKw(cmd).telegram
  }

  function Hear(t: Talk, a: Action): Talk {
    if t.Broken? then Broken
    else
      match a
      case Accepted(cmd) => Talk(t.queue + [cmd], t.sent)
      case Wrote(b) =>
        if !IsTelegram(a) then t
        else if t.queue != [] && !t.sent && Spells(b, t.queue[0]) then t.(sent := true)
        else Broken
      case Delivered(r) =>
        if t.queue != [] && r.id == t.queue[0].id then Talk(t.queue[1..], false) else Broken
      case Got(_) => t
      case Drained => t
  }

  function Conversation(trace: seq<Action>): Talk {
    Fold(Hear, SILENT, trace)
  }

  // ------------------------------------------- the session with the controller

  /**
   * `Off`: not synchronised since the last EOT, or the last synchronisation failed. `On`: synchronised,
   * nothing to be confirmed. `Sent`: a telegram was written and may be confirmed once.
   * `KwReady`: a KW frame was opened.
   */
  datatype Session = Off | Syncing | On | Sent | KwReady | Illegal

  function Watch(s: Session, a: Action): Session {
    match a
    case Wrote(b) =>
      if s == Illegal then Illegal
      else if b == [EOT] then Off
      else if b == SYNC then (if s == KwReady then Illegal else Syncing)
      else if b == [SOH] then (if s == Off || s == KwReady then KwReady else Illegal)
      else if b == [ACK] || b == [NAK] then (if s == Sent then On else Illegal)
      else if IsP300Telegram(b) then (if s == On || s == Sent then Sent else Illegal)
      else if IsKwTelegram(b) then (if s == KwReady then Off else Illegal)
      else Illegal
    case Got(b) => if s != Syncing then s else if b == [ACK] then On else Off
    case Accepted(_) => s
    case Drained => s
    case Delivered(_) => s
  }

  function SessionOf(trace: seq<Action>): Session {
    Fold(Watch, Off, trace)
  }

  // --------------------------------------------------------------- the invariant

  predicate Pending(m: Machine) {
    m.hasCmd || m.state == RecvKw
  }

  predicate KwState(s: VitoState) {
    s in {SendKwStart, SendKw, RecvKw}
  }

  predicate P300State(s: VitoState) {
    s in {SwP300, WaitAck, Wait, SendP300, SendP300Ack, RecvP300, RecvP300Ack, RecvP300Nak}
  }

  /** Errors are only ever counted in the reset cycle, so the other states start from zero. */
  predicate Counted(m: Machine) {
    m.failCount <= MAX_FAIL && (m.failCount > 0 ==> m.state in {Reset, ResetAck})
  }

  predicate Allowed(m: Machine) {
    && !m.state.ResetP300? && !m.state.ResetP300Ack?
    && (KwState(m.state) ==> !m.canP300)
    && (P300State(m.state) ==> m.canP300)
  }

  predicate TalkFits(m: Machine, t: Talk) {
    && t.Talk?
    && (m.state in {SendP300, SendP300Ack, RecvP300, SendKwStart, SendKw} ==> m.hasCmd)
    && (m.state == RecvKw ==> !m.hasCmd)
    && (Pending(m) ==>
          |t.queue| == 1 && t.sent == (m.state in {SendP300Ack, RecvP300, RecvKw}) &&
          m.cmd == if !t.sent then t.queue[0]
                   else if m.state == RecvKw then PrepareKw(t.queue[0]).cmd
                   else PrepareP300(t.queue[0]).cmd)
    && (!Pending(m) ==> t == SILENT)
    && (m.state == RecvKw && m.cmd.command == KW_WRITE ==> m.cmd.resultLen == 1)
  }

  predicate SessionFits(m: Machine, s: Session) {
    match m.state
    case Unknown => s == Off
    case Reset => s != Illegal
    case ResetAck => s == Off
    case ResetP300 => false
    case ResetP300Ack => false
    case Idle => s == Off || (!m.canP300 && s == KwReady)
    case SendKwStart => s == Off || s == KwReady
    case SendKw => s == KwReady
    case RecvKw => s == Off
    case SwP300 => s == Off || s == On || s == Sent
    case WaitAck => s == Syncing
    case Wait => s == On || s == Sent
    case SendP300 => s == On || s == Sent
    case SendP300Ack => s == Sent
    case RecvP300 => s == Sent
    case RecvP300Ack => s == Sent
    case RecvP300Nak => s == Sent
  }

  predicate Sound(m: Machine, t: Talk, s: Session) {
    Counted(m) && Allowed(m) && TalkFits(m, t) && SessionFits(m, s)
  }

  /** One pass keeps the invariant, or stops with both automata still content. */
  predicate PassSound(m: Machine, o: Pass, t: Talk, s: Session) {
    var t', s' := Fold(Hear, t, o.actions), Fold(Watch, s, o.actions);
    && (o.stop == None ==> Sound(o.next, t', s') && o.next.canP300 == m.canP300)
    && t'.Talk? && s' != Illegal
    && (o.stop == Some(Panic) ==> m.state == RecvP300)
  }

  lemma ReadActions(o: Pass, t: Talk, s: Session)
    ensures |o.actions| == 0 ==> Fold(Hear, t, o.actions) == t && Fold(Watch, s, o.actions) == s
    ensures |o.actions| == 1 ==>
              Fold(Hear, t, o.actions) == Hear(t, o.actions[0]) && Fold(Watch, s, o.actions) == Watch(s, o.actions[0])
    ensures |o.actions| == 2 ==>
              Fold(Hear, t, o.actions) == Hear(Hear(t, o.actions[0]), o.actions[1]) &&
              Fold(Watch, s, o.actions) == Watch(Watch(s, o.actions[0]), o.actions[1])
    ensures |o.actions| == 3 ==>
              Fold(Hear, t, o.actions) == Hear(Hear(Hear(t, o.actions[0]), o.actions[1]), o.actions[2]) &&
              Fold(Watch, s, o.actions) == Watch(Watch(Watch(s, o.actions[0]), o.actions[1]), o.actions[2])
  {
    FoldFew(Hear, t, o.actions);
    FoldFew(Watch, s, o.actions);
  }

  lemma PreparedId(cmd: FsmCmd)
    ensures PrepareKw(cmd).cmd.id == cmd.id && PrepareP300(cmd).cmd.id == cmd.id
  {
  }

  lemma SendSound(m: Machine, env: Env, bytes: seq<byte>, next: VitoState, t: Talk, s: Session)
    requires TalkFits(m, t) && m.state in {Unknown, Reset, SendKwStart, SwP300, RecvP300Ack, RecvP300Nak}
    requires Sound(m, t, s)
    requires (bytes, next) == match m.state
                              case SendKwStart => ([SOH], SendKw)
                              case SwP300 => (SYNC, WaitAck)
                              case RecvP300Ack => ([ACK], Wait)
                              case RecvP300Nak => ([NAK], Wait)
                              case _ => ([EOT], ResetAck)
    ensures PassSound(m, Send(m, env, bytes, next), t, s)
  {
    ReadActions(Send(m, env, bytes, next), t, s);
  }

  lemma UnknownSound(m: Machine, env: Env, t: Talk, s: Session)
    requires Sound(m, t, s) && m.state == Unknown
    ensures PassSound(m, Send(m.(state := Reset), env, [EOT], ResetAck), t, s)
  {
    SendSound(m.(state := Reset), env, [EOT], ResetAck, t, s);
  }

  lemma ResetAckSound(m: Machine, env: Env, t: Talk, s: Session)
    requires Sound(m, t, s) && m.state == ResetAck
    ensures PassSound(m, OnResetAck(m, env), t, s)
  {
    hide Collect, CollectFrom;
    ReadActions(OnResetAck(m, env), t, s);
  }

  lemma IdleSound(m: Machine, env: Env, t: Talk, s: Session)
    requires Sound(m, t, s) && m.state == Idle
    ensures PassSound(m, OnIdle(m, env), t, s)
  {
    hide Collect, CollectFrom, OnIdleKw;
    if m.canP300 {
      ReadActions(OnIdle(m, env), t, s);
    } else {
      IdleKwSound(m, env, t, s);
    }
  }

  lemma IdleKwSound(m: Machine, env: Env, t: Talk, s: Session)
    requires Sound(m, t, s) && m.state == Idle && !m.canP300
    ensures PassSound(m, OnIdleKw(m, env), t, s)
  {
    hide OnIdleKw;
    IdleKwShape(m, env);
    ReadActions(OnIdleKw(m, env), t, s);
  }

  /** A pass in the idle state without P300: it may take a command if it holds none, and may read a byte. */
  lemma IdleKwShape(m: Machine, env: Env)
    requires m.failCount == 0
    ensures var o := OnIdleKw(m, env);
            var taken := o.actions != [] && o.actions[0].Accepted?;
            && |o.actions| <= 2 && (taken ==> !m.hasCmd)
            && (forall i :: (if taken then 1 else 0) <= i < |o.actions| ==> o.actions[i].Got?)
            && (o.stop != Some(Panic))
            && (o.stop == None ==>
                  && o.next.hasCmd == (m.hasCmd || taken) && o.next.cmd == (if taken then o.actions[0].cmd else m.cmd)
                  && o.next.canP300 == m.canP300 && o.next.failCount == 0
                  && o.next.state in {if o.next.hasCmd then SendKwStart else Idle, Reset})
  {
    hide Collect, CollectFrom;
  }

  lemma SendKwSound(m: Machine, env: Env, t: Talk, s: Session)
    requires Sound(m, t, s) && m.state == SendKw
    ensures PassSound(m, OnSendKw(m, env), t, s)
  {
    ReadActions(OnSendKw(m, env), t, s);
  }

  lemma RecvKwSound(m: Machine, env: Env, t: Talk, s: Session)
    requires Sound(m, t, s) && m.state == RecvKw
    ensures PassSound(m, OnRecvKw(m, env), t, s)
  {
    hide Collect, CollectFrom, PrepareKw, PrepareP300, OnReplyKw, Sound;
    KwResultLength(m, t, s);
    var c := Collect(m.cmd.resultLen, m.link);
    var m1, acts := m.(link := c.rest), [Got(c.bytes)];
    var o := OnRecvKw(m, env);
    if o.stop.Some? && o == Halt(m1, acts, Starved) {
      KwHaltSound(m, m1, acts, t, s);
    } else if c.err.Some? {
      KwAnswerSound(m, m1, c.bytes, c.err, t, s);
    } else if m.cmd.command == KW_WRITE && c.bytes[0] != 0x00 {
      KwAnswerSound(m, m1, c.bytes, Some(WriteRefused), t, s);
    } else {
      var body := if m.cmd.command == KW_WRITE then [|m.cmd.args| % 0x100] else c.bytes;
      KwReplySound(m, m1, env, c.bytes, body, t, s);
    }
  }

  lemma KwResultLength(m: Machine, t: Talk, s: Session)
    requires Sound(m, t, s) && m.state == RecvKw
    ensures m.cmd.command == KW_WRITE ==> m.cmd.resultLen == 1
  {
  }

  lemma KwHaltSound(m: Machine, m1: Machine, acts: seq<Action>, t: Talk, s: Session)
    requires Sound(m, t, s) && m.state == RecvKw && |acts| == 1 && acts[0].Got?
    ensures PassSound(m, Halt(m1, acts, Starved), t, s)
  {
    ReadActions(Halt(m1, acts, Starved), t, s);
  }

  lemma KwAnswerSound(m: Machine, m1: Machine, b: seq<byte>, err: Option<Error>, t: Talk, s: Session)
    requires Sound(m, t, s) && m.state == RecvKw && m1 == m.(link := m1.link)
    ensures PassSound(m, Answering(m1, [Got(b)], err, [], Idle), t, s)
  {
    hide PrepareKw, PrepareP300;
    PreparedId(t.queue[0]);
    ReadActions(Answering(m1, [Got(b)], err, [], Idle), t, s);
  }

  lemma KwReplySound(m: Machine, m1: Machine, env: Env, b: seq<byte>, body: seq<byte>, t: Talk, s: Session)
    requires Sound(m, t, s) && m.state == RecvKw && m1 == m.(link := m1.link)
    ensures PassSound(m, Then(Go(m1, [Got(b)]), OnReplyKw(m1, env, body)), t, s)
  {
    hide PrepareKw, PrepareP300;
    PreparedId(t.queue[0]);
    ReadActions(Then(Go(m1, [Got(b)]), OnReplyKw(m1, env, body)), t, s);
  }

  lemma WaitAckSound(m: Machine, env: Env, t: Talk, s: Session)
    requires Sound(m, t, s) && m.state == WaitAck
    ensures PassSound(m, OnWaitAck(m, env), t, s)
  {
    hide Collect, CollectFrom;
    ReadActions(OnWaitAck(m, env), t, s);
  }

  lemma WaitSound(m: Machine, env: Env, t: Talk, s: Session)
    requires Sound(m, t, s) && m.state == Wait
    ensures PassSound(m, OnWait(m, env), t, s)
  {
    ReadActions(OnWait(m, env), t, s);
  }

  lemma SendP300Sound(m: Machine, env: Env, t: Talk, s: Session)
    requires Sound(m, t, s) && m.state == SendP300
    ensures PassSound(m, OnSendP300(m, env), t, s)
  {
    ReadActions(OnSendP300(m, env), t, s);
  }

  lemma SendP300AckSound(m: Machine, env: Env, t: Talk, s: Session)
    requires Sound(m, t, s) && m.state == SendP300Ack
    ensures PassSound(m, OnSendP300Ack(m, env), t, s)
  {
    hide Collect, CollectFrom, PrepareKw, PrepareP300;
    PreparedId(t.queue[0]);
    ReadActions(OnSendP300Ack(m, env), t, s);
  }

  lemma RecvP300Sound(m: Machine, env: Env, t: Talk, s: Session)
    requires Sound(m, t, s) && m.state == RecvP300
    ensures PassSound(m, OnRecvP300(m, env), t, s)
  {
    hide Collect, CollectFrom, ParseAnswer, PassSound, Sound;
    var o := OnRecvP300(m, env);
    if o.stop.Some? {
      AnswerHaltSound(m, o, t, s);
    } else {
      var n := |o.actions| - 1;
      AnswerSound(m, o, t, s);
    }
  }

  lemma AnswerHaltSound(m: Machine, o: Pass, t: Talk, s: Session)
    requires Sound(m, t, s) && m.state == RecvP300 && o.stop.Some?
    requires 1 <= |o.actions| <= 2 && forall i :: 0 <= i < |o.actions| ==> o.actions[i].Got?
    ensures PassSound(m, o, t, s)
  {
    hide PrepareP300;
    ReadActions(o, t, s);
  }

  lemma AnswerSound(m: Machine, o: Pass, t: Talk, s: Session)
    requires Sound(m, t, s) && m.state == RecvP300 && o.stop == None && 2 <= |o.actions| <= 3
    requires forall i :: 0 <= i < |o.actions| - 1 ==> o.actions[i].Got?
    requires var a := o.actions[|o.actions| - 1]; a.Delivered? && a.result.id == m.cmd.id
    requires o.next.state in {Reset, RecvP300Nak, RecvP300Ack}
    requires o.next == m.(hasCmd := false, state := o.next.state, link := o.next.link)
    ensures PassSound(m, o, t, s)
  {
    hide PrepareKw, PrepareP300;
    PreparedId(t.queue[0]);
    ReadActions(o, t, s);
  }

  lemma SwitchSound(m: Machine, env: Env, t: Talk, s: Session)
    requires Sound(m, t, s) && m.prevstate == m.state
    ensures PassSound(m, Switch(m, env), t, s)
  {
    hide PassSound, OnResetAck, OnIdle, OnSendKw, OnRecvKw, OnWaitAck, OnWait, OnSendP300, OnSendP300Ack, OnRecvP300;
    match m.state {
      case Unknown => UnknownSound(m, env, t, s);
      case Reset => SendSound(m, env, [EOT], ResetAck, t, s);
      case ResetAck => ResetAckSound(m, env, t, s);
      case Idle => IdleSound(m, env, t, s);
      case SendKwStart => SendSound(m, env, [SOH], SendKw, t, s);
      case SendKw => SendKwSound(m, env, t, s);
      case RecvKw => RecvKwSound(m, env, t, s);
      case SwP300 => SendSound(m, env, SYNC, WaitAck, t, s);
      case WaitAck => WaitAckSound(m, env, t, s);
      case Wait => WaitSound(m, env, t, s);
      case SendP300 => SendP300Sound(m, env, t, s);
      case SendP300Ack => SendP300AckSound(m, env, t, s);
      case RecvP300 => RecvP300Sound(m, env, t, s);
      case RecvP300Ack => SendSound(m, env, [ACK], Wait, t, s);
      case RecvP300Nak => SendSound(m, env, [NAK], Wait, t, s);
    }
  }

  lemma NextSound(m: Machine, env: Env, t: Talk, s: Session)
    requires Sound(m, t, s)
    ensures PassSound(m, Next(m, env), t, s)
  {
    hide Switch;
    ReadActions(Next(m, env), t, s);
    if !env.done && !env.linkError {
      SwitchSound(m.(prevstate := m.state, link := m.link + env.arriving), env, t, s);
    }
  }

  /** What holds of every run that starts with the machine, whichever mode it starts in. */
  ghost predicate RunSound(m: Machine, r: Pass) {
    && Conversation(r.actions).Talk? && SessionOf(r.actions) != Illegal
    && (r.stop == None ==> Sound(r.next, Conversation(r.actions), SessionOf(r.actions)) && r.next.canP300 == m.canP300)
  }

  lemma RunIsSound(canP300: bool, now: int, envs: seq<Env>)
    ensures RunSound(Start(canP300, now), Run(Next, Start(canP300, now), envs))
  {
    var inv := (m: Machine, past: seq<Action>) => Sound(m, Conversation(past), SessionOf(past)) && m.canP300 == canP300;
    var fin := (m: Machine, past: seq<Action>) => Conversation(past).Talk? && SessionOf(past) != Illegal;
    forall m, past, env | inv(m, past)
      ensures Kept(Next(m, env), past, inv, fin)
    {
      NextKeepsPast(m, env, past);
    }
    RunKeeps(Next, inv, fin, Start(canP300, now), [], envs);
    assert [] + Run(Next, Start(canP300, now), envs).actions == Run(Next, Start(canP300, now), envs).actions;
  }

  lemma NextKeepsPast(m: Machine, env: Env, past: seq<Action>)
    requires Sound(m, Conversation(past), SessionOf(past))
    ensures var o := Next(m, env);
            var now := past + o.actions;
            && (o.stop == None ==> Sound(o.next, Conversation(now), SessionOf(now)) && o.next.canP300 == m.canP300)
            && Conversation(now).Talk? && SessionOf(now) != Illegal
  {
    hide Next, Sound;
    var o := Next(m, env);
    NextSound(m, env, Conversation(past), SessionOf(past));
    FoldConcat(Hear, SILENT, past, o.actions);
    FoldConcat(Watch, Off, past, o.actions);
  }

  // ------------------------------------ what a trace the conversation accepts looks like

  function Acceptances(trace: seq<Action>): seq<FsmCmd> {
    if trace == [] then []
    else
      var a := trace[|trace| - 1];
      Acceptances(trace[..|trace| - 1]) + if a.Accepted? then [a.cmd] else []
  }

  function Deliveries(trace: seq<Action>): seq<FsmResult> {
    if trace == [] then []
    else
      var a := trace[|trace| - 1];
      Deliveries(trace[..|trace| - 1]) + if a.Delivered? then [a.result] else []
  }

  lemma {:induction false} AcceptancesConcat(x: seq<Action>, y: seq<Action>)
    ensures Acceptances(x + y) == Acceptances(x) + Acceptances(y)
    decreases |y|
  {
    if y == [] {
      assert x + y == x;
    } else {
      var n := |y| - 1;
      assert (x + y)[..|x + y| - 1] == x + y[..n];
      AcceptancesConcat(x, y[..n]);
    }
  }

  lemma {:induction false} DeliveriesConcat(x: seq<Action>, y: seq<Action>)
    ensures Deliveries(x + y) == Deliveries(x) + Deliveries(y)
    decreases |y|
  {
    if y == [] {
      assert x + y == x;
    } else {
      var n := |y| - 1;
      assert (x + y)[..|x + y| - 1] == x + y[..n];
      DeliveriesConcat(x, y[..n]);
    }
  }

  /** Results answer the commands in order, and the commands not yet answered are the queue. */
  ghost predicate Conserved(accepted: seq<FsmCmd>, delivered: seq<FsmResult>, queue: seq<FsmCmd>) {
    && |delivered| + |queue| == |accepted|
    && accepted[|delivered|..] == queue
    && forall i :: 0 <= i < |delivered| ==> delivered[i].id == accepted[i].id
  }

  /** The telegram at position i belongs to the oldest command without an answer. */
  ghost predicate Attributed(trace: seq<Action>, i: nat)
    requires i < |trace| && IsTelegram(trace[i])
  {
    var n := |Deliveries(trace[..i])|;
    n < |Acceptances(trace[..i])| && Spells(trace[i].bytes, Acceptances(trace[..i])[n])
  }

  lemma ConservedStep(accepted: seq<FsmCmd>, delivered: seq<FsmResult>, t: Talk, a: Action)
    requires t.Talk? && Conserved(accepted, delivered, t.queue) && Hear(t, a).Talk?
    ensures var t' := Hear(t, a);
            Conserved(accepted + if a.Accepted? then [a.cmd] else [], delivered + if a.Delivered? then [a.result] else [], t'.queue)
  {
    hide Spells;
  }

  lemma {:induction false} Conservation(trace: seq<Action>)
    requires Conversation(trace).Talk?
    ensures Conserved(Acceptances(trace), Deliveries(trace), Conversation(trace).queue)
  {
    if trace != [] {
      hide Conserved, Hear;
      var before, a := trace[..|trace| - 1], trace[|trace| - 1];
      FoldLast(Hear, SILENT, trace);
      BrokenStays(Conversation(before), a);
      Conservation(before);
      ConservedStep(Acceptances(before), Deliveries(before), Conversation(before), a);
    }
  }

  lemma BrokenStays(t: Talk, a: Action)
    requires Hear(t, a).Talk?
    ensures t.Talk?
  {
  }

  /** What the conversation says about the telegrams of a trace. */
  ghost predicate Accounted(trace: seq<Action>, sent: bool) {
    && (forall i :: 0 <= i < |trace| && IsTelegram(trace[i]) ==> Attributed(trace, i))
    && (forall i, j :: 0 <= i < j < |trace| && IsTelegram(trace[i]) && IsTelegram(trace[j]) ==>
          |Deliveries(trace[..i])| < |Deliveries(trace[..j])|)
    && (!sent ==> forall i :: 0 <= i < |trace| && IsTelegram(trace[i]) ==> |Deliveries(trace[..i])| < |Deliveries(trace)|)
  }

  /** A telegram that the conversation allows is that of the oldest command without an answer. */
  lemma TelegramIsNext(before: seq<Action>, t: Talk, a: Action)
    requires t.Talk? && Conserved(Acceptances(before), Deliveries(before), t.queue) && Hear(t, a).Talk? && IsTelegram(a)
    ensures !t.sent && Hear(t, a).sent && Attributed(before + [a], |before|)
  {
    hide Spells, PrepareKw, PrepareP300;
    assert (before + [a])[..|before|] == before;
  }

  /** `sent` is dropped only by a delivery. */
  lemma SentStays(t: Talk, a: Action)
    requires Hear(t, a).Talk? && t.sent && !Hear(t, a).sent
    ensures a.Delivered?
  {
    hide Spells;
  }

  lemma AccountedStep(before: seq<Action>, t: Talk, a: Action)
    requires t.Talk? && Accounted(before, t.sent) && Hear(t, a).Talk?
    requires Conserved(Acceptances(before), Deliveries(before), t.queue)
    ensures Accounted(before + [a], Hear(t, a).sent)
  {
    hide Hear, IsTelegram, Attributed, Conserved, Deliveries;
    var trace := before + [a];
    DeliveriesAfter(before, a);
    if IsTelegram(a) {
      TelegramIsNext(before, t, a);
    }
    if t.sent && !Hear(t, a).sent {
      SentStays(t, a);
    }
    forall i | 0 <= i < |before|
      ensures trace[i] == before[i] && trace[..i] == before[..i]
      ensures |Deliveries(trace[..i])| <= |Deliveries(before)|
    {
      DeliveriesGrow(trace, i, |before|);
    }
    forall i | 0 <= i < |trace| && IsTelegram(trace[i])
      ensures Attributed(trace, i)
    {
      if i < |before| {
        AttributedLater(before, a, i);
      }
    }
  }

  lemma DeliveriesAfter(before: seq<Action>, a: Action)
    ensures (before + [a])[..|before|] == before
    ensures |Deliveries(before + [a])| == |Deliveries(before)| + if a.Delivered? then 1 else 0
  {
    assert (before + [a])[..|before|] == before;
  }

  lemma AttributedLater(before: seq<Action>, a: Action, i: nat)
    requires i < |before| && IsTelegram(before[i]) && Attributed(before, i)
    ensures Attributed(before + [a], i)
  {
    assert (before + [a])[..i] == before[..i];
  }

  /** Every telegram is that of an accepted command, and each accepted command has at most one. */
  lemma {:induction false} TelegramsOnce(trace: seq<Action>)
    requires Conversation(trace).Talk?
    ensures Accounted(trace, Conversation(trace).sent)
  {
    if trace != [] {
      hide Accounted, Conserved, Hear;
      var before, a := trace[..|trace| - 1], trace[|trace| - 1];
      assert trace == before + [a];
      FoldLast(Hear, SILENT, trace);
      BrokenStays(Conversation(before), a);
      TelegramsOnce(before);
      Conservation(before);
      AccountedStep(before, Conversation(before), a);
    }
  }

  lemma {:induction false} DeliveriesGrow(trace: seq<Action>, i: nat, j: nat)
    requires i <= j <= |trace|
    ensures |Deliveries(trace[..i])| <= |Deliveries(trace[..j])|
    decreases j - i
  {
    if i < j {
      DeliveriesGrow(trace, i, j - 1);
      assert trace[..j][..j - 1] == trace[..j - 1];
    }
  }

  /**
   * Over every run the delivered results answer a prefix of the accepted commands; while the machine
   * is live one command is unanswered exactly when `hasCmd` or the state is `RecvKw`.
   */
  lemma RequestsConserved(canP300: bool, now: int, envs: seq<Env>)
    ensures var r := Run(Next, Start(canP300, now), envs);
            var accepted, delivered := Acceptances(r.actions), Deliveries(r.actions);
            && |delivered| <= |accepted|
            && (forall i :: 0 <= i < |delivered| ==> delivered[i].id == accepted[i].id)
            && (r.stop == None ==> |accepted| - |delivered| == if Pending(r.next) then 1 else 0)
  {
    hide Next;
    RunIsSound(canP300, now, envs);
    Conservation(Run(Next, Start(canP300, now), envs).actions);
  }

  lemma WrittenAtMostOnce(canP300: bool, now: int, envs: seq<Env>)
    ensures var trace := Run(Next, Start(canP300, now), envs).actions;
            && (forall i :: 0 <= i < |trace| && IsTelegram(trace[i]) ==> Attributed(trace, i))
            && (forall i, j :: 0 <= i < j < |trace| && IsTelegram(trace[i]) && IsTelegram(trace[j]) ==>
                  |Deliveries(trace[..i])| < |Deliveries(trace[..j])|)
  {
    hide Next;
    RunIsSound(canP300, now, envs);
    TelegramsOnce(Run(Next, Start(canP300, now), envs).actions);
  }

  // ---------------------------------------- what a trace the session accepts looks like

  predicate IsReply(a: Action) {
    a == Wrote([ACK]) || a == Wrote([NAK])
  }

  predicate IsRequest(a: Action) {
    a.Wrote? && IsP300Telegram(a.bytes)
  }

  /** At j a synchronisation was written; since then neither another one nor an EOT. */
  ghost predicate LastSync(trace: seq<Action>, j: nat) {
    && j < |trace| && trace[j] == Wrote(SYNC)
    && forall x :: j < x < |trace| ==> trace[x] != Wrote([EOT]) && trace[x] != Wrote(SYNC)
  }

  ghost predicate AnsweredAt(trace: seq<Action>, j: nat, k: nat) {
    j < k < |trace| && trace[k] == Got([ACK]) && forall x :: j < x < k ==> !trace[x].Got?
  }

  ghost predicate Synchronised(trace: seq<Action>) {
    exists j: nat, k: nat :: LastSync(trace, j) && AnsweredAt(trace, j, k)
  }

  ghost predicate AwaitsSync(trace: seq<Action>) {
    exists j: nat :: LastSync(trace, j) && forall x :: j < x < |trace| ==> !trace[x].Got?
  }

  /** There is a P300 telegram at or after `from`, with no reply behind it. */
  ghost predicate OpenRequest(trace: seq<Action>) {
    exists i: nat :: i < |trace| && IsRequest(trace[i]) && forall x :: i < x < |trace| ==> !IsReply(trace[x])
  }

  ghost predicate RequestBetween(trace: seq<Action>, a: int, b: int)
    requires -1 <= a < b <= |trace|
  {
    exists i :: a < i < b && IsRequest(trace[i])
  }

  ghost predicate SyncFacts(s: Session, trace: seq<Action>) {
    && (s == Syncing ==> AwaitsSync(trace))
    && (s in {On, Sent} ==> Synchronised(trace))
    && (forall i :: 0 <= i < |trace| && IsRequest(trace[i]) ==> Synchronised(trace[..i]))
  }

  ghost predicate RepliesApart(trace: seq<Action>) {
    && (forall b :: 0 <= b < |trace| && IsReply(trace[b]) ==> RequestBetween(trace, -1, b))
    && (forall a, b :: 0 <= a < b < |trace| && IsReply(trace[a]) && IsReply(trace[b]) ==> RequestBetween(trace, a, b))
  }

  lemma AwaitsSyncStep(before: seq<Action>, a: Action)
    ensures a == Wrote(SYNC) ==> AwaitsSync(before + [a])
    ensures AwaitsSync(before) && a != Wrote(SYNC) && a != Wrote([EOT]) && !a.Got? ==> AwaitsSync(before + [a])
    ensures AwaitsSync(before) && a == Got([ACK]) ==> Synchronised(before + [a])
    ensures Synchronised(before) && a != Wrote(SYNC) && a != Wrote([EOT]) ==> Synchronised(before + [a])
  {
    var trace := before + [a];
    if a == Wrote(SYNC) {
      assert LastSync(trace, |before|);
    } else if a != Wrote([EOT]) {
      if AwaitsSync(before) {
        var j: nat :| LastSync(before, j) && forall x :: j < x < |before| ==> !before[x].Got?;
        assert LastSync(trace, j);
        if a == Got([ACK]) {
          assert AnsweredAt(trace, j, |before|);
        }
      }
      if Synchronised(before) {
        var j: nat, k: nat :| LastSync(before, j) && AnsweredAt(before, j, k);
        assert LastSync(trace, j) && AnsweredAt(trace, j, k);
      }
    }
  }

  lemma OpenRequestStep(before: seq<Action>, a: Action)
    ensures IsRequest(a) ==> OpenRequest(before + [a])
    ensures OpenRequest(before) && !IsReply(a) ==> OpenRequest(before + [a])
  {
    var trace := before + [a];
    if IsRequest(a) {
      assert IsRequest(trace[|before|]);
    } else if OpenRequest(before) && !IsReply(a) {
      var i: nat :| i < |before| && IsRequest(before[i]) && forall x :: i < x < |before| ==> !IsReply(before[x]);
      assert IsRequest(trace[i]);
    }
  }

  /** A reply behind an open request has a request between itself and any earlier reply. */
  lemma ReplyStep(before: seq<Action>, a: Action)
    requires OpenRequest(before) && IsReply(a)
    ensures RequestBetween(before + [a], -1, |before|)
    ensures forall x :: 0 <= x < |before| && IsReply(before[x]) ==> RequestBetween(before + [a], x, |before|)
  {
    var i: nat :| i < |before| && IsRequest(before[i]) && forall x :: i < x < |before| ==> !IsReply(before[x]);
    assert IsRequest((before + [a])[i]);
  }

  lemma SyncFactsStep(s: Session, before: seq<Action>, a: Action)
    requires SyncFacts(s, before) && Watch(s, a) != Illegal
    ensures SyncFacts(Watch(s, a), before + [a])
  {
    hide AwaitsSync, Synchronised;
    var trace := before + [a];
    AwaitsSyncStep(before, a);
    forall i | 0 <= i < |trace| && IsRequest(trace[i])
      ensures Synchronised(trace[..i])
    {
      assert before[..i] == trace[..i];
      if i < |before| {
        assert IsRequest(before[i]);
      } else {
        assert trace[..i] == before;
      }
    }
  }

  lemma ReplyFactsStep(s: Session, before: seq<Action>, a: Action)
    requires (s == Sent ==> OpenRequest(before)) && RepliesApart(before) && Watch(s, a) != Illegal
    ensures Watch(s, a) == Sent ==> OpenRequest(before + [a])
    ensures RepliesApart(before + [a])
  {
    hide OpenRequest, RequestBetween;
    OpenRequestStep(before, a);
    if IsReply(a) {
      ReplyStep(before, a);
    }
    RepliesExtend(before, a);
  }

  /** Whatever the automaton accepts is synchronised before every telegram, and confirmed at most once per telegram. */
  lemma {:induction false} SessionTrace(trace: seq<Action>)
    requires SessionOf(trace) != Illegal
    ensures SyncFacts(SessionOf(trace), trace)
    ensures SessionOf(trace) == Sent ==> OpenRequest(trace)
    ensures RepliesApart(trace)
  {
    if trace != [] {
      hide SyncFacts, RepliesApart, OpenRequest, Watch;
      var before, a := trace[..|trace| - 1], trace[|trace| - 1];
      assert trace == before + [a];
      FoldLast(Watch, Off, trace);
      IllegalStays(SessionOf(before), a);
      SessionTrace(before);
      SyncFactsStep(SessionOf(before), before, a);
      ReplyFactsStep(SessionOf(before), before, a);
    } else {
      assert SessionOf(trace) == Off;
    }
  }

  lemma IllegalStays(s: Session, a: Action)
    requires Watch(s, a) != Illegal
    ensures s != Illegal
  {
  }

  lemma RepliesExtend(before: seq<Action>, a: Action)
    requires forall b :: 0 <= b < |before| && IsReply(before[b]) ==> RequestBetween(before, -1, b)
    requires forall x, b :: 0 <= x < b < |before| && IsReply(before[x]) && IsReply(before[b]) ==> RequestBetween(before, x, b)
    requires IsReply(a) ==> RequestBetween(before + [a], -1, |before|)
    requires IsReply(a) ==>
               forall x :: 0 <= x < |before| && IsReply(before[x]) ==> RequestBetween(before + [a], x, |before|)
    ensures forall b :: 0 <= b <= |before| && IsReply((before + [a])[b]) ==> RequestBetween(before + [a], -1, b)
    ensures forall x, b :: 0 <= x < b <= |before| && IsReply((before + [a])[x]) && IsReply((before + [a])[b]) ==>
              RequestBetween(before + [a], x, b)
  {
    hide RequestBetween, IsReply;
    var trace := before + [a];
    forall b | 0 <= b <= |before| && IsReply(trace[b])
      ensures RequestBetween(trace, -1, b)
    {
      if b < |before| {
        KeepBetween(before, a, -1, b);
      }
    }
    forall x, b | 0 <= x < b <= |before| && IsReply(trace[x]) && IsReply(trace[b])
      ensures RequestBetween(trace, x, b)
    {
      if b < |before| {
        KeepBetween(before, a, x, b);
      }
    }
  }

  lemma KeepBetween(before: seq<Action>, a: Action, x: int, b: int)
    requires -1 <= x < b < |before| && (x == -1 || IsReply(before[x])) && IsReply(before[b])
    requires RequestBetween(before, x, b)
    ensures RequestBetween(before + [a], x, b)
  {
    var i :| x < i < b && IsRequest(before[i]);
    assert IsRequest((before + [a])[i]);
  }

  /**
   * Session safety of every run: when a P300 telegram is written, the last synchronisation since the
   * last EOT was answered by ACK, and every ACK/NAK reply has a telegram of its own before it.
   */
  lemma SessionIsSafe(canP300: bool, now: int, envs: seq<Env>)
    ensures var trace := Run(Next, Start(canP300, now), envs).actions;
            && SessionOf(trace) != Illegal
            && (forall i :: 0 <= i < |trace| && IsRequest(trace[i]) ==> Synchronised(trace[..i]))
            && (forall b :: 0 <= b < |trace| && IsReply(trace[b]) ==> RequestBetween(trace, -1, b))
            && (forall a, b :: 0 <= a < b < |trace| && IsReply(trace[a]) && IsReply(trace[b]) ==> RequestBetween(trace, a, b))
  {
    hide Next;
    RunIsSound(canP300, now, envs);
    SessionTrace(Run(Next, Start(canP300, now), envs).actions);
  }

  // ------------------------------------------------- which states can be reached

  /**
   * The mode never changes: `canP300` keeps its initial value for ever, so a machine that starts with
   * it never enters a KW state, and one that starts without never enters a P300 state.
   */
  lemma ModeIsFixed(canP300: bool, now: int, envs: seq<Env>)
    ensures var r := Run(Next, Start(canP300, now), envs);
            r.stop == None ==>
              && r.next.canP300 == canP300
              && (canP300 ==> !KwState(r.next.state))
              && (!canP300 ==> !P300State(r.next.state))
              && !r.next.state.ResetP300? && !r.next.state.ResetP300Ack?
              && 0 <= r.next.failCount <= MAX_FAIL
              && (r.next.failCount > 0 ==> r.next.state in {Reset, ResetAck})
  {
    hide Next;
    RunIsSound(canP300, now, envs);
  }

  /** The machine stays in the reset cycle for all these passes. */
  ghost predicate Cycles(m: Machine, envs: seq<Env>)
    decreases |envs|
  {
    && m.state in {Reset, ResetAck}
    && (envs != [] ==> Next(m, envs[0]).stop == None && Cycles(Next(m, envs[0]).next, envs[1..]))
  }

  lemma {:induction false} CycleEnds(m: Machine, envs: seq<Env>)
    requires m.failCount <= MAX_FAIL && Cycles(m, envs)
    ensures |envs| <= 2 * (MAX_FAIL - m.failCount) + if m.state == Reset then 1 else 0
    decreases |envs|
  {
    if envs != [] {
      hide CollectFrom;
      CycleEnds(Next(m, envs[0]).next, envs[1..]);
    }
  }

  // ---------------------------------------------------------- answered or starved

  predicate Answers(actions: seq<Action>, id: Uuid) {
    exists i :: 0 <= i < |actions| && actions[i].Delivered? && actions[i].result.id == id
  }

  lemma AnswerStep(m: Machine, env: Env)
    requires m.state == SendP300 ==> Encodable(m.cmd)
    requires m.state in {SendP300, SendP300Ack, RecvP300}
    ensures var o := Next(m, env);
            || o.stop.Some?
            || Answers(o.actions, m.cmd.id)
            || (m.state == SendP300 && o.next.state == SendP300Ack && o.next.cmd.id == m.cmd.id)
            || (m.state == SendP300Ack && o.next.state == RecvP300 && o.next.cmd.id == m.cmd.id)
  {
    hide Collect, CollectFrom, ParseAnswer;
    var o := Next(m, env);
    if o.stop == None && o.actions != [] && o.actions[|o.actions| - 1].Delivered? {
      assert o.actions[|o.actions| - 1].result.id == m.cmd.id;
    }
  }

  /** An encodable command is answered within three passes, unless the machine stops. */
  lemma AnsweredWithinThree(m: Machine, e1: Env, e2: Env, e3: Env)
    requires m.state == SendP300 && Encodable(m.cmd)
    ensures var r := Run(Next, m, [e1, e2, e3]);
            r.stop.Some? || Answers(r.actions, m.cmd.id)
  {
    hide Next;
    var r1 := Next(m, e1);
    AnswerStep(m, e1);
    RunStep(Next, m, [], e1);
    assert [] + [e1] == [e1];
    assert Run(Next, m, [e1]) == Then(Run(Next, m, []), r1);
    assert [] + r1.actions == r1.actions;
    RunStep(Next, m, [e1], e2);
    RunStep(Next, m, [e1, e2], e3);
    assert [e1] + [e2] == [e1, e2] && [e1, e2] + [e3] == [e1, e2, e3];
    if r1.stop == None {
      var r2 := Next(r1.next, e2);
      if !Answers(r1.actions, m.cmd.id) {
        AnswerStep(r1.next, e2);
        if r2.stop == None && !Answers(r2.actions, m.cmd.id) {
          AnswerStep(r2.next, e3);
          AnswersConcat(r1.actions + r2.actions, Next(r2.next, e3).actions, m.cmd.id);
        }
      }
      AnswersConcat(r1.actions, r2.actions, m.cmd.id);
      AnswersConcat(r1.actions + r2.actions, Next(r2.next, e3).actions, m.cmd.id);
    }
  }

  lemma AnswersConcat(x: seq<Action>, y: seq<Action>, id: Uuid)
    ensures Answers(x + y, id) <==> Answers(x, id) || Answers(y, id)
  {
    if i :| 0 <= i < |x| && x[i].Delivered? && x[i].result.id == id {
      assert (x + y)[i] == x[i];
    }
    if i :| 0 <= i < |y| && y[i].Delivered? && y[i].result.id == id {
      assert (x + y)[|x| + i] == y[i];
    }
  }

  /** The machine holds a command it cannot encode in P300. */
  predicate Starving(m: Machine, cmd: FsmCmd) {
    && m.hasCmd && m.cmd == cmd && m.canP300 && m.failCount == 0
    && m.state in {Wait, SendP300, SwP300, WaitAck}
  }

  predicate Unanswered(a: Action) {
    a.Wrote? || a.Got?
  }

  /** A command that cannot be encoded is never answered, and no other is accepted, however long the run. */
  lemma UnencodableStarves(m: Machine, envs: seq<Env>)
    requires Starving(m, m.cmd) && !Encodable(m.cmd)
    ensures var r := Run(Next, m, envs);
            && (r.stop == None ==> Starving(r.next, m.cmd))
            && forall i :: 0 <= i < |r.actions| ==> Unanswered(r.actions[i])
  {
    hide Next;
    var cmd := m.cmd;
    var fin := (s: Machine, past: seq<Action>) => forall i :: 0 <= i < |past| ==> Unanswered(past[i]);
    var inv := (s: Machine, past: seq<Action>) => Starving(s, cmd) && fin(s, past);
    forall s, past, env | inv(s, past)
      ensures Kept(Next(s, env), past, inv, fin)
    {
      StarvingStep(s, cmd, env);
      assert forall a :: a in past + Next(s, env).actions ==> a in past || a in Next(s, env).actions;
    }
    RunKeeps(Next, inv, fin, m, [], envs);
    assert [] + Run(Next, m, envs).actions == Run(Next, m, envs).actions;
  }

  lemma StarvingStep(m: Machine, cmd: FsmCmd, env: Env)
    requires Starving(m, cmd) && !Encodable(cmd)
    ensures var o := Next(m, env);
            && (o.stop == None ==> Starving(o.next, cmd))
            && forall i :: 0 <= i < |o.actions| ==> Unanswered(o.actions[i])
  {
    hide Collect, CollectFrom;
  }
}
