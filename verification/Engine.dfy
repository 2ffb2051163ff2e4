/**
 * The state machine that speaks KW and P300 with the controller. `Next` is one pass of its loop as a
 * function of the state and of what the environment does during that pass.
 */
module Engine {
  import opened Bytes
  import opened Telegram
  import opened Link
  import opened Runs

  datatype VitoState =
    | Unknown
    | Reset
    | ResetAck
    | ResetP300
    | ResetP300Ack
    | Idle
    | SendKwStart
    | SendKw
    | RecvKw
    | SwP300
    | WaitAck
    | Wait
    | SendP300
    | SendP300Ack
    | RecvP300
    | RecvP300Ack
    | RecvP300Nak

  const MAX_FAIL := 100
  const SYNC: seq<byte> := [SYN, NUL, NUL]

  /** The local variables of the machine, and the part of the link not yet read. */
  datatype Machine = Machine(
    state: VitoState,
    prevstate: VitoState,
    failCount: nat,
    canP300: bool,
    hasCmd: bool,
    cmd: FsmCmd,
    lastSyn: int,
    lastEnq: int,
    link: seq<LinkEvent>)

  const NO_CMD := FsmCmd(0, 0, AddrBytes(0, 0), [], 0)

  function Start(canP300: bool, now: int): Machine {
    Machine(Unknown, Unknown, 0, canP300, false, NO_CMD, now, now, [])
  }

  /** What a receive on the command channel yields. */
  datatype Poll = NoCmd | Offer(cmd: FsmCmd) | ClosedCmds

  /** Which case of the three-way select in state `Wait` fires. */
  datatype Source = FromCommands | FromLink | FromTimer

  datatype Env = Env(
    done: bool,
    linkError: bool,
    arriving: seq<LinkEvent>,
    writeOk: bool,
    poll: Poll,
    source: Source,
    now: int,    // clock in ms when the pass starts
    after: int)  // clock in ms when it has finished waiting

  datatype Action =
    | Wrote(bytes: seq<byte>)
    | Got(bytes: seq<byte>)
    | Drained
    | Accepted(cmd: FsmCmd)
    | Delivered(result: FsmResult)

  datatype Stop = Quit | LinkFailed | WriteFailed | Starved | TooManyFails | CommandsClosed | Panic

  type Pass = Outcome<Machine, Action, Stop>

  function Go(m: Machine, actions: seq<Action>): Pass {
    Outcome(m, actions, None)
  }

  function Halt(m: Machine, actions: seq<Action>, stop: Stop): Pass {
    Outcome(m, actions, Some(stop))
  }

  function Send(m: Machine, env: Env, bytes: seq<byte>, next: VitoState): Pass {
    if env.writeOk then Go(m.(state := next), [Wrote(bytes)]) else Halt(m, [], WriteFailed)
  }

  datatype Waited = Waited(machine: Machine, err: Option<Error>, bytes: seq<byte>)

  function WaitFor(m: Machine, w: byte, next: VitoState, fail: VitoState): Waited {
    var c := Collect(1, m.link);
    var m1 := m.(link := c.rest);
    if c.err.Some? then Waited(m1.(failCount := m.failCount + 1, state := fail), c.err, c.bytes)
    else if c.bytes[0] == w then Waited(m1.(failCount := 0, state := next), None, c.bytes)
    else Waited(m1.(state := fail), None, c.bytes)
  }

  lemma WaitedIs(m: Machine, c: Collected, w: byte, next: VitoState, fail: VitoState)
    requires c == Collect(1, m.link)
    ensures WaitFor(m, w, next, fail) ==
            Waited(m.(state := if c.err == None && c.bytes[0] == w then next else fail,
                      failCount := if c.err.Some? then m.failCount + 1 else if c.bytes[0] == w then 0 else m.failCount,
                      link := c.rest),
                   c.err, c.bytes)
  {
    hide Collect, CollectFrom;
  }

  /** `waitfor` where the caller gives up on an error. */
  function WaitForOrStop(m: Machine, before: seq<Action>, w: byte, next: VitoState, fail: VitoState): Pass {
    var r := WaitFor(m, w, next, fail);
    Outcome(r.machine, before + [Got(r.bytes)], if r.err.Some? then Some(Starved) else None)
  }

  function Answering(m: Machine, actions: seq<Action>, err: Option<Error>, body: seq<byte>, next: VitoState): Pass {
    Go(m.(state := next), actions + [Delivered(FsmResult(m.cmd.id, err, body))])
  }

  function OnResetAck(m: Machine, env: Env): Pass {
    var c := Collect(1, m.link);
    var m1 := m.(link := c.rest);
    if c.err.Some? then Halt(m1, [Got(c.bytes)], Starved)
    else if c.bytes[0] == ENQ || c.bytes[0] == ACK then
      Go(m1.(lastEnq := env.after, failCount := 0, state := Idle), [Got(c.bytes)])
    else if m.failCount + 1 > MAX_FAIL then
      Halt(m1.(failCount := m.failCount + 1), [Got(c.bytes)], TooManyFails)
    else
      Go(m1.(failCount := m.failCount + 1, state := Reset), [Got(c.bytes)])
  }

  function OnResetP300Ack(m: Machine, env: Env): Pass {
    var r := WaitFor(m, ACK, Idle, ResetAck);
    Go(r.machine.(lastEnq := env.after), [Got(r.bytes)])
  }

  function Noting(o: Pass, lastEnq: int): Pass {
    if o.stop.Some? then o else o.(next := o.next.(lastEnq := lastEnq))
  }

  function OnIdle(m: Machine, env: Env): Pass {
    if m.canP300 then Noting(WaitForOrStop(m, [], ENQ, SwP300, Reset), env.after) else OnIdleKw(m, env)
  }

  function OnIdleKw(m: Machine, env: Env): Pass {
    if !m.hasCmd && env.poll.ClosedCmds? then
      Halt(m, [], CommandsClosed)
    else
      var taken := !m.hasCmd && env.poll.Offer?;
      var m1 := if taken then m.(cmd := env.poll.cmd, hasCmd := true) else m;
      var acts := if taken then [Accepted(env.poll.cmd)] else [];
      if !m1.hasCmd then Noting(WaitForOrStop(m1, acts, ENQ, Idle, Reset), env.after)
      else if env.now - m.lastEnq > 1500 then WaitForOrStop(m1, acts, ENQ, SendKwStart, Reset)
      else Go(m1.(state := SendKwStart), acts)
  }

  function OnSendKwStart(m: Machine, env: Env): Pass {
    if m.prevstate != RecvKw then Send(m, env, [SOH], SendKw) else Go(m.(state := SendKw), [])
  }

  function OnSendKw(m: Machine, env: Env): Pass {
    var p := PrepareKw(m.cmd);
    var m1 := m.(hasCmd := false, cmd := p.cmd);
    if p.telegram.Some? then Send(m1, env, p.telegram.value, RecvKw)
    else Answering(m1, [], Some(NotImplemented), [], Idle)
  }

  function OnRecvKw(m: Machine, env: Env): Pass {
    var c := Collect(m.cmd.resultLen, m.link);
    var m1 := m.(link := c.rest);
    var acts := [Got(c.bytes)];
    if c.err.Some? then
      if c.bytes == [] then Halt(m1, acts, Starved) else Answering(m1, acts, c.err, [], Idle)
    else if m.cmd.command == KW_WRITE && c.bytes == [] then Halt(m1, acts, Panic)
    else if m.cmd.command == KW_WRITE && c.bytes[0] != 0x00 then Answering(m1, acts, Some(WriteRefused), [], Idle)
    else
      var body := if m.cmd.command == KW_WRITE then [|m.cmd.args| % 0x100] else c.bytes;
      Then(Go(m1, acts), OnReplyKw(m1, env, body))
  }

  /** The next command is polled for before the result of the previous one is handed over. */
  function OnReplyKw(m: Machine, env: Env, body: seq<byte>): Pass {
    match env.poll
    case ClosedCmds => Halt(m.(hasCmd := true), [], CommandsClosed)
    case Offer(cmd) =>
      var o := Answering(m, [Accepted(cmd)], None, body, SendKwStart);
      o.(next := o.next.(cmd := cmd, hasCmd := true, lastEnq := env.after))
    case NoCmd =>
      var o := Answering(m, [], None, body, Idle);
      o.(next := o.next.(hasCmd := false, lastEnq := env.after))
  }

  function OnWaitAck(m: Machine, env: Env): Pass {
    var o :=
      if m.failCount < 3 then WaitForOrStop(m, [], ACK, Wait, SwP300)
      else
        var o := WaitForOrStop(m, [], ACK, Wait, Reset);
        o.(next := o.next.(canP300 := false));
    if o.stop.Some? then o else o.(next := o.next.(lastSyn := env.after))
  }

  /** The link behind the next event that is not a silence, if there is one. */
  function AfterNextEvent(link: seq<LinkEvent>): Option<seq<LinkEvent>> {
    if link == [] then None
    else if link[0].Silence? then AfterNextEvent(link[1..])
    else if link[0].Closed? then Some(link)
    else Some(link[1..])
  }

  function OnWait(m: Machine, env: Env): Pass {
    if env.now - m.lastSyn > 10_000 then Go(m.(state := SwP300), [])
    else if m.hasCmd then Go(m.(state := SendP300), [])
    else
      match env.source
      case FromCommands =>
        (match env.poll
         case ClosedCmds => Halt(m, [], CommandsClosed)
         case Offer(cmd) => Go(m.(cmd := cmd, hasCmd := true, state := SendP300), [Accepted(cmd)])
         case NoCmd => Go(m.(state := SwP300), []))
      case FromLink =>
        (match AfterNextEvent(m.link)
         case Some(rest) => Go(m.(link := rest, state := Reset), [Drained])
         case None => Go(m.(state := SwP300), []))
      case FromTimer => Go(m.(state := SwP300), [])
  }

  function OnSendP300(m: Machine, env: Env): Pass {
    var p := PrepareP300(m.cmd);
    var m1 := m.(cmd := p.cmd);
    if p.telegram.Some? then Send(m1, env, p.telegram.value, SendP300Ack) else Go(m1.(state := Wait), [])
  }

  function OnSendP300Ack(m: Machine, env: Env): Pass {
    var c := Collect(1, m.link);
    var m1 := m.(link := c.rest);
    if c.err.Some? then Halt(m1, [Got(c.bytes)], Starved)
    else if c.bytes[0] == ACK then Go(m1.(state := RecvP300), [Got(c.bytes)])
    else
      Answering(m1.(hasCmd := false), [Got(c.bytes)], Some(if c.bytes[0] == NAK then Nak else NoAck), [], Wait)
  }

  function OnRecvP300(m: Machine, env: Env): Pass {
    var c1 := Collect(2, m.link);
    var m1 := m.(state := RecvP300Nak, hasCmd := false, link := c1.rest);
    if c1.err.Some? then
      if c1.bytes == [] then Halt(m1, [Got(c1.bytes)], Starved)
      else Answering(m1, [Got(c1.bytes)], Some(NoHeader), [], Reset)
    else if c1.bytes[0] != SO3 then
      Answering(m1, [Got(c1.bytes)], Some(BadStartByte), [], Reset)
    else
      var l := c1.bytes[1];
      var c2 := Collect(l as int + 1, c1.rest);
      var m2 := m1.(link := c2.rest);
      var acts := [Got(c1.bytes), Got(c2.bytes)];
      if c2.err.Some? then
        if c2.bytes == [] then Halt(m2, acts, Starved) else Answering(m2, acts, Some(NoTelegram), [], Reset)
      else
        match ParseAnswer(m.cmd, l, c2.bytes)
        case Crashed => Halt(m2, acts, Panic)
        case Refused(reason) => Answering(m2, acts, Some(reason), [], RecvP300Nak)
        case Answered(err, body) => Answering(m2, acts, err, body, RecvP300Ack)
  }

  function Switch(m: Machine, env: Env): Pass {
    match m.state
    case Unknown => Send(m.(state := Reset), env, [EOT], ResetAck)
    case Reset => Send(m, env, [EOT], ResetAck)
    case ResetAck => OnResetAck(m, env)
    case ResetP300 => Send(m, env, [EOT], ResetP300Ack)
    case ResetP300Ack => OnResetP300Ack(m, env)
    case Idle => OnIdle(m, env)
    case SendKwStart => OnSendKwStart(m, env)
    case SendKw => OnSendKw(m, env)
    case RecvKw => OnRecvKw(m, env)
    case SwP300 => Send(m, env, SYNC, WaitAck)
    case WaitAck => OnWaitAck(m, env)
    case Wait => OnWait(m, env)
    case SendP300 => OnSendP300(m, env)
    case SendP300Ack => OnSendP300Ack(m, env)
    case RecvP300 => OnRecvP300(m, env)
    case RecvP300Ack => Send(m, env, [ACK], Wait)
    case RecvP300Nak => Send(m, env, [NAK], Wait)
  }

  function Next(m: Machine, env: Env): Pass {
    if env.done then Halt(m, [], Quit)
    else
      var m1 := m.(prevstate := m.state, link := m.link + env.arriving);
      if env.linkError then Halt(m1, [], LinkFailed) else Switch(m1, env)
  }

  // ------------------------------------------------------------- the machine

  class VitoFsm {
    var state: VitoState
    var prevstate: VitoState
    var failCount: nat
    var canP300: bool
    var hasCmd: bool
    var cmd: FsmCmd
    var lastSyn: int
    var lastEnq: int
    var link: seq<LinkEvent>
    ghost var trace: seq<Action>

    ghost function View(): Machine
      reads this
    {
      Machine(state, prevstate, failCount, canP300, hasCmd, cmd, lastSyn, lastEnq, link)
    }

    /** The machine has done what `o` says since it stood at `m` with the trace `t`. */
    ghost predicate Did(t: seq<Action>, o: Pass, stop: Option<Stop>)
      reads this
    {
      View() == o.next && trace == t + o.actions && stop == o.stop
    }

    constructor (canP300: bool, now: int)
      ensures View() == Start(canP300, now) && trace == []
    {
      state, prevstate := Unknown, Unknown;
      failCount, this.canP300, hasCmd, cmd := 0, canP300, false, NO_CMD;
      lastSyn, lastEnq := now, now;
      link, trace := [], [];
    }

    method WaitForBytes(n: nat) returns (a: seq<byte>, err: Option<Error>)
      modifies this`link, this`trace
      ensures Collected(a, err, link) == Collect(n, old(link))
      ensures trace == old(trace) + [Got(a)]
    {
      if n == 0 {
        trace := trace + [Got([])];
        return [], None;
      }
      var timeouts := 0;
      a := [];
      while true
        invariant |a| < n && timeouts <= 150 + n
        invariant CollectFrom(n, link, a, timeouts) == Collect(n, old(link))
        invariant trace == old(trace)
        decreases (n - |a|) + (151 + n - timeouts)
      {
        if link == [] || link[0].Silence? {
          timeouts := timeouts + 1;
          if link != [] {
            link := link[1..];
          }
          if (timeouts > 2 && |a| > 1) || timeouts > 150 + n {
            trace := trace + [Got(a)];
            return a, Some(TimedOut);
          }
        } else if link[0].Closed? {
          trace := trace + [Got([])];
          return [], Some(Eof);
        } else {
          a := a + [link[0].b];
          link := link[1..];
          if |a| == n {
            trace := trace + [Got(a)];
            return a, None;
          }
        }
      }
    }

    method WaitForByte(w: byte, next: VitoState, fail: VitoState) returns (b: seq<byte>, err: Option<Error>)
      modifies this`state, this`failCount, this`link, this`trace
      ensures Waited(View(), err, b) == WaitFor(old(View()), w, next, fail)
      ensures trace == old(trace) + [Got(b)]
    {
      hide Collect, CollectFrom, WaitFor;
      ghost var m := View();
      b, err := WaitForBytes(1);
      if err.Some? {
        failCount := failCount + 1;
        state := fail;
      } else if w == b[|b| - 1] {
        failCount := 0;
        state := next;
      } else {
        state := fail;
      }
      WaitedIs(m, Collected(b, err, link), w, next, fail);
    }

    method Write(bytes: seq<byte>, env: Env) returns (ok: bool)
      modifies this`trace
      ensures ok == env.writeOk
      ensures trace == old(trace) + if ok then [Wrote(bytes)] else []
    {
      ok := env.writeOk;
      trace := trace + if ok then [Wrote(bytes)] else [];
    }

    method Deliver(err: Option<Error>, body: seq<byte>)
      modifies this`trace
      ensures trace == old(trace) + [Delivered(FsmResult(cmd.id, err, body))]
    {
      trace := trace + [Delivered(FsmResult(cmd.id, err, body))];
    }

    method Accept(c: FsmCmd)
      modifies this`trace, this`cmd, this`hasCmd
      ensures cmd == c && hasCmd && trace == old(trace) + [Accepted(c)]
    {
      cmd, hasCmd := c, true;
      trace := trace + [Accepted(c)];
    }

    method SendBytes(bytes: seq<byte>, next: VitoState, env: Env) returns (stop: Option<Stop>)
      modifies this
      ensures Did(old(trace), Send(old(View()), env, bytes, next), stop)
    {
      var ok := Write(bytes, env);
      if !ok {
        return Some(WriteFailed);
      }
      state := next;
      stop := None;
    }

    method StepResetAck(env: Env) returns (stop: Option<Stop>)
      modifies this
      ensures Did(old(trace), OnResetAck(old(View()), env), stop)
    {
      hide Collect, CollectFrom;
      var b, err := WaitForBytes(1);
      if err.Some? {
        return Some(Starved);
      }
      if b[0] == ENQ {
        lastEnq, failCount, state := env.after, 0, Idle;
      } else if b[0] == ACK {
        lastEnq, failCount, state := env.after, 0, Idle;
      } else {
        failCount := failCount + 1;
        if failCount > MAX_FAIL {
          return Some(TooManyFails);
        }
        state := Reset;
      }
      stop := None;
    }

    method StepIdle(env: Env) returns (stop: Option<Stop>)
      modifies this
      ensures Did(old(trace), OnIdle(old(View()), env), stop)
    {
      hide Collect, CollectFrom, OnIdleKw;
      stop := None;
      if canP300 {
        var _, err := WaitForByte(ENQ, SwP300, Reset);
        if err.Some? {
          return Some(Starved);
        }
        lastEnq := env.after;
      } else {
        stop := StepIdleKw(env);
      }
    }

    method StepIdleKw(env: Env) returns (stop: Option<Stop>)
      modifies this
      ensures Did(old(trace), OnIdleKw(old(View()), env), stop)
    {
      hide WaitFor;
      stop := None;
      if !hasCmd {
        match env.poll {
          case Offer(c) => Accept(c);
          case ClosedCmds => return Some(CommandsClosed);
          case NoCmd => hasCmd := false;
        }
      }
      if hasCmd {
        if env.now - lastEnq > 1500 {
          var _, err := WaitForByte(ENQ, SendKwStart, Reset);
          if err.Some? {
            return Some(Starved);
          }
        } else {
          state := SendKwStart;
        }
      } else {
        var _, err := WaitForByte(ENQ, Idle, Reset);
        if err.Some? {
          return Some(Starved);
        }
        lastEnq := env.after;
      }
    }

    method StepSendKwStart(env: Env) returns (stop: Option<Stop>)
      modifies this
      ensures Did(old(trace), OnSendKwStart(old(View()), env), stop)
    {
      stop := None;
      if prevstate != RecvKw {
        stop := SendBytes([SOH], SendKw, env);
      } else {
        state := SendKw;
      }
    }

    method StepSendKw(env: Env) returns (stop: Option<Stop>)
      modifies this
      ensures Did(old(trace), OnSendKw(old(View()), env), stop)
    {
      hide PrepareKw;
      hasCmd := false;
      var p := PrepareKw(cmd);
      cmd := p.cmd;
      if p.telegram.Some? {
        var ok := Write(p.telegram.value, env);
        if !ok {
          return Some(WriteFailed);
        }
        state := RecvKw;
      } else {
        Deliver(Some(NotImplemented), []);
        state := Idle;
      }
      stop := None;
    }

    method StepRecvKw(env: Env) returns (stop: Option<Stop>)
      modifies this
      ensures Did(old(trace), OnRecvKw(old(View()), env), stop)
    {
      hide Collect, CollectFrom;
      stop := None;
      var b, err := WaitForBytes(cmd.resultLen);
      if err.Some? {
        if b == [] {
          return Some(Starved);
        }
        Deliver(err, []);
        state := Idle;
        return;
      }
      if cmd.command == KW_WRITE {
        if b == [] {
          return Some(Panic);
        }
        if b[0] != 0x00 {
          Deliver(Some(WriteRefused), []);
          state := Idle;
          return;
        }
        b := [|cmd.args| % 0x100];
      }
      stop := ReplyKw(env, b);
    }

    method ReplyKw(env: Env, b: seq<byte>) returns (stop: Option<Stop>)
      modifies this
      ensures Did(old(trace), OnReplyKw(old(View()), env, b), stop)
    {
      stop := None;
      var prevId := cmd.id;
      match env.poll {
        case Offer(c) =>
          Accept(c);
          state := SendKwStart;
        case ClosedCmds =>
          hasCmd := true;
          return Some(CommandsClosed);
        case NoCmd =>
          hasCmd := false;
          state := Idle;
      }
      trace := trace + [Delivered(FsmResult(prevId, None, b))];
      lastEnq := env.after;
    }

    method StepWaitAck(env: Env) returns (stop: Option<Stop>)
      modifies this
      ensures Did(old(trace), OnWaitAck(old(View()), env), stop)
    {
      hide WaitFor;
      var b, err;
      if failCount < 3 {
        b, err := WaitForByte(ACK, Wait, SwP300);
      } else {
        b, err := WaitForByte(ACK, Wait, Reset);
        canP300 := false;
      }
      if err.Some? {
        return Some(Starved);
      }
      lastSyn := env.after;
      stop := None;
    }

    method StepWait(env: Env) returns (stop: Option<Stop>)
      modifies this
      ensures Did(old(trace), OnWait(old(View()), env), stop)
    {
      stop := None;
      if env.now - lastSyn > 10_000 {
        state := SwP300;
        return;
      }
      if !hasCmd {
        match env.source {
          case FromCommands =>
            match env.poll {
              case Offer(c) => Accept(c);
              case ClosedCmds => return Some(CommandsClosed);
              case NoCmd => state := SwP300;
            }
          case FromLink =>
            match AfterNextEvent(link) {
              case Some(rest) =>
                link, state := rest, Reset;
                trace := trace + [Drained];
              case None => state := SwP300;
            }
          case FromTimer => state := SwP300;
        }
      }
      if hasCmd {
        state := SendP300;
      }
    }

    method StepSendP300(env: Env) returns (stop: Option<Stop>)
      modifies this
      ensures Did(old(trace), OnSendP300(old(View()), env), stop)
    {
      hide PrepareP300;
      stop := None;
      var p := PrepareP300(cmd);
      cmd := p.cmd;
      if p.telegram.Some? {
        var ok := Write(p.telegram.value, env);
        if !ok {
          return Some(WriteFailed);
        }
        state := SendP300Ack;
      } else {
        state := Wait;
      }
    }

    method StepSendP300Ack(env: Env) returns (stop: Option<Stop>)
      modifies this
      ensures Did(old(trace), OnSendP300Ack(old(View()), env), stop)
    {
      hide Collect, CollectFrom;
      var b, err := WaitForBytes(1);
      if err.Some? {
        return Some(Starved);
      }
      if b[0] == ACK {
        state := RecvP300;
      } else {
        Deliver(Some(if b[0] == NAK then Nak else NoAck), []);
        hasCmd := false;
        state := Wait;
      }
      stop := None;
    }

    method StepRecvP300(env: Env) returns (stop: Option<Stop>)
      modifies this
      ensures Did(old(trace), OnRecvP300(old(View()), env), stop)
    {
      hide Collect, CollectFrom, ParseAnswer;
      stop := None;
      state := RecvP300Nak;
      hasCmd := false;
      var part1, err := WaitForBytes(2);
      if err.Some? {
        if part1 == [] {
          return Some(Starved);
        }
        Deliver(Some(NoHeader), []);
        state := Reset;
        return;
      }
      if part1[0] != SO3 {
        Deliver(Some(BadStartByte), []);
        state := Reset;
        return;
      }
      var part2;
      part2, err := WaitForBytes(part1[1] as int + 1);
      if err.Some? {
        if part2 == [] {
          return Some(Starved);
        }
        Deliver(Some(NoTelegram), []);
        state := Reset;
        return;
      }
      match ParseAnswer(cmd, part1[1], part2) {
        case Crashed =>
          return Some(Panic);
        case Refused(reason) =>
          Deliver(Some(reason), []);
        case Answered(e, body) =>
          Deliver(e, body);
          state := RecvP300Ack;
      }
    }

    /** One pass of the machine's loop. */
    method Step(env: Env) returns (stop: Option<Stop>)
      modifies this
      ensures Did(old(trace), Next(old(View()), env), stop)
    {
      hide Switch;
      if env.done {
        return Some(Quit);
      }
      prevstate := state;
      link := link + env.arriving;
      if env.linkError {
        return Some(LinkFailed);
      }
      stop := Dispatch(env);
    }

    /** The switch over the state. */
    method Dispatch(env: Env) returns (stop: Option<Stop>)
      modifies this
      ensures Did(old(trace), Switch(old(View()), env), stop)
    {
      hide Send, OnResetAck, OnIdle, OnSendKwStart, OnSendKw, OnRecvKw, OnWaitAck, OnWait, OnSendP300, OnSendP300Ack, OnRecvP300;
      match state {
        case Unknown =>
          state := Reset;
          stop := SendBytes([EOT], ResetAck, env);
        case Reset => stop := SendBytes([EOT], ResetAck, env);
        case ResetAck => stop := StepResetAck(env);
        case ResetP300 => stop := SendBytes([EOT], ResetP300Ack, env);
        case ResetP300Ack =>
          var _, _ := WaitForByte(ACK, Idle, ResetAck);
          lastEnq := env.after;
          stop := None;
        case Idle => stop := StepIdle(env);
        case SendKwStart => stop := StepSendKwStart(env);
        case SendKw => stop := StepSendKw(env);
        case RecvKw => stop := StepRecvKw(env);
        case SwP300 => stop := SendBytes(SYNC, WaitAck, env);
        case WaitAck => stop := StepWaitAck(env);
        case Wait => stop := StepWait(env);
        case SendP300 => stop := StepSendP300(env);
        case SendP300Ack => stop := StepSendP300Ack(env);
        case RecvP300 => stop := StepRecvP300(env);
        case RecvP300Ack => stop := SendBytes([ACK], Wait, env);
        case RecvP300Nak => stop := SendBytes([NAK], Wait, env);
      }
    }

    /** The loop itself, for as many passes as the environment allows. */
    method Loop(envs: seq<Env>) returns (stop: Option<Stop>)
      modifies this
      ensures Did(old(trace), Run(Next, old(View()), envs), stop)
    {
      hide Switch;
      stop := None;
      ghost var m := View();
      for i := 0 to |envs|
        invariant Did(old(trace), Run(Next, m, envs[..i]), stop) && stop == None
      {
        RunPrefix(Next, m, envs, i);
        stop := Step(envs[i]);
        if stop.Some? {
          RunRest(Next, m, envs, i + 1);
          return;
        }
      }
      assert envs[..|envs|] == envs;
    }
  }
}
