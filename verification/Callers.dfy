/**
 * Any number of concurrent `RawCmds` callers and the engine. `cmdLock` serialises the callers; the
 * channels are unbuffered, so a command changes hands only while a caller offers it, and the engine
 * stays blocked on a result until a caller takes it.
 */
module Callers {
  import opened Bytes
  import opened Telegram
  import opened Link
  import opened Runs
  import opened Engine
  import opened EngineSafety

  type Caller = nat

  /** `Away` is outside the critical section: idle, or queueing for the lock. */
  datatype Phase = Away | Offering(cmd: FsmCmd) | Awaiting(cmd: FsmCmd)

  datatype Receipt = Receipt(cmd: FsmCmd, result: FsmResult)

  datatype System = System(
    phases: map<Caller, Phase>,
    lock: Option<Caller>,
    machine: Machine,
    sending: Option<FsmResult>,  // the result the engine is blocked on
    receipts: seq<Receipt>)
  {
    function PhaseOf(c: Caller): Phase {
      if c in phases then phases[c] else Away
    }
  }

  datatype Event =
    | Enter(caller: Caller, cmd: FsmCmd)                // takes the lock and starts offering
    | GiveUp(caller: Caller)                            // ten seconds without an engine
    | Pass(caller: Caller, env: Env)                    // the engine passes; its poll may meet this caller
    | Take(caller: Caller, next: Option<FsmCmd>)        // takes the result, then goes on or leaves

  function Takes(actions: seq<Action>): Option<FsmCmd> {
    if actions == [] then None
    else if actions[0].Accepted? then Some(actions[0].cmd)
    else Takes(actions[1..])
  }

  function Gives(actions: seq<Action>): Option<FsmResult> {
    if actions == [] then None
    else if actions[0].Delivered? then Some(actions[0].result)
    else Gives(actions[1..])
  }

  predicate Enabled(s: System, e: Event) {
    match e
    case Enter(c, _) => s.lock == None && s.PhaseOf(c).Away?
    case GiveUp(c) => s.PhaseOf(c).Offering?
    case Pass(c, env) =>
      s.sending == None && !env.poll.ClosedCmds? && (env.poll.Offer? ==> s.PhaseOf(c) == Offering(env.poll.cmd))
    case Take(c, _) => s.sending.Some? && s.PhaseOf(c).Awaiting?
  }

  function Happen(s: System, e: Event): Outcome<System, Action, Stop> {
    if !Enabled(s, e) then Outcome(s, [], None)
    else
      match e
      case Enter(c, cmd) => Outcome(s.(lock := Some(c), phases := s.phases[c := Offering(cmd)]), [], None)
      case GiveUp(c) => Outcome(s.(lock := None, phases := s.phases[c := Away]), [], None)
      case Pass(c, env) =>
        var o := Next(s.machine, env);
        var phases := match Takes(o.actions)
                      case Some(cmd) => s.phases[c := Awaiting(cmd)]
                      case None => s.phases;
        Outcome(s.(machine := o.next, sending := Gives(o.actions), phases := phases), o.actions, o.stop)
      case Take(c, next) =>
        var s1 := s.(sending := None, receipts := s.receipts + [Receipt(s.PhaseOf(c).cmd, s.sending.value)]);
        match next
        case Some(cmd) => Outcome(s1.(phases := s.phases[c := Offering(cmd)]), [], None)
        case None => Outcome(s1.(lock := None, phases := s.phases[c := Away]), [], None)
  }

  function Begin(canP300: bool, now: int): System {
    System(map[], None, Start(canP300, now), None, [])
  }

  // ------------------------------------------------------------------ invariant

  /** The command the engine or its blocked result still owes to a caller. */
  function Owed(s: System): Option<Uuid> {
    if Pending(s.machine) then Some(s.machine.cmd.id)
    else if s.sending.Some? then Some(s.sending.value.id)
    else None
  }

  ghost predicate Exclusive(s: System) {
    && (forall c: Caller :: !s.PhaseOf(c).Away? ==> s.lock == Some(c))
    && (s.lock.Some? ==> !s.PhaseOf(s.lock.value).Away?)
  }

  ghost predicate Consistent(s: System) {
    && Exclusive(s)
    && !(Pending(s.machine) && s.sending.Some?)
    && (Owed(s).Some? <==> s.lock.Some? && s.PhaseOf(s.lock.value).Awaiting?)
    && (Owed(s).Some? ==> s.PhaseOf(s.lock.value).cmd.id == Owed(s).value)
    && (forall r :: r in s.receipts ==> r.result.id == r.cmd.id)
  }

  ghost predicate Holds(s: System, past: seq<Action>) {
    Consistent(s) && Sound(s.machine, Conversation(past), SessionOf(past))
  }

  /** What one pass does with commands and results. */
  ghost predicate Effects(m: Machine, env: Env, o: Pass) {
    var t, g := Takes(o.actions), Gives(o.actions);
    && (t.Some? ==> env.poll == Offer(t.value) && (!Pending(m) || g.Some?) && Pending(o.next) && o.next.cmd == t.value)
    && (g.Some? ==> Pending(m) && g.value.id == m.cmd.id && (t == None ==> !Pending(o.next)))
    && (t == None && g == None ==> Pending(o.next) == Pending(m) && (Pending(m) ==> o.next.cmd.id == m.cmd.id))
  }

  lemma FewTaken(actions: seq<Action>)
    ensures |actions| == 0 ==> Takes(actions) == None && Gives(actions) == None
    ensures |actions| == 1 ==>
              Takes(actions) == (if actions[0].Accepted? then Some(actions[0].cmd) else None) &&
              Gives(actions) == if actions[0].Delivered? then Some(actions[0].result) else None
    ensures |actions| == 2 && !actions[0].Accepted? && !actions[0].Delivered? ==>
              Takes(actions) == (if actions[1].Accepted? then Some(actions[1].cmd) else None) &&
              Gives(actions) == if actions[1].Delivered? then Some(actions[1].result) else None
    ensures |actions| == 2 && actions[0].Accepted? && actions[1].Got? ==>
              Takes(actions) == Some(actions[0].cmd) && Gives(actions) == None
    ensures |actions| == 3 && actions[0].Got? && actions[2].Delivered? ==>
              Takes(actions) == (if actions[1].Accepted? then Some(actions[1].cmd) else None) &&
              (!actions[1].Delivered? ==> Gives(actions) == Some(actions[2].result))
  {
    if 1 < |actions| {
      var rest := actions[1..];
      assert Takes(rest) == if rest[0].Accepted? then Some(rest[0].cmd) else Takes(rest[1..]);
      assert Gives(rest) == if rest[0].Delivered? then Some(rest[0].result) else Gives(rest[1..]);
      if |actions| == 3 {
        assert rest[1..] == [actions[2]];
        assert [actions[2]][1..] == [];
      }
    }
  }

  lemma QuietEffects(m: Machine, env: Env, t: Talk)
    requires TalkFits(m, t) && !env.poll.ClosedCmds? && m.state in {Unknown, Reset, ResetAck, SendKwStart, SwP300, WaitAck, RecvP300Ack, RecvP300Nak}
    requires Next(m, env).stop == None
    ensures Effects(m, env, Next(m, env))
  {
    hide Collect, CollectFrom;
    FewTaken(Next(m, env).actions);
  }

  lemma IdleEffects(m: Machine, env: Env, t: Talk)
    requires TalkFits(m, t) && !env.poll.ClosedCmds? && m.state in {Idle}
    requires Next(m, env).stop == None
    ensures Effects(m, env, Next(m, env))
  {
    hide Collect, CollectFrom;
    FewTaken(Next(m, env).actions);
  }

  lemma SendEffects(m: Machine, env: Env, t: Talk)
    requires TalkFits(m, t) && !env.poll.ClosedCmds? && m.state in {SendKw, SendP300}
    requires Next(m, env).stop == None
    ensures Effects(m, env, Next(m, env))
  {
    hide Checksum;
    FewTaken(Next(m, env).actions);
  }

  lemma RecvKwEffects(m: Machine, env: Env, t: Talk)
    requires TalkFits(m, t) && !env.poll.ClosedCmds? && m.state in {RecvKw}
    requires Next(m, env).stop == None
    ensures Effects(m, env, Next(m, env))
  {
    hide Collect, CollectFrom, PrepareKw, PrepareP300;
    FewTaken(Next(m, env).actions);
  }

  lemma WaitEffects(m: Machine, env: Env, t: Talk)
    requires TalkFits(m, t) && !env.poll.ClosedCmds? && m.state in {Wait, SendP300Ack}
    requires Next(m, env).stop == None
    ensures Effects(m, env, Next(m, env))
  {
    hide Collect, CollectFrom;
    FewTaken(Next(m, env).actions);
  }

  lemma RecvP300Effects(m: Machine, env: Env, t: Talk)
    requires TalkFits(m, t) && !env.poll.ClosedCmds? && m.state in {RecvP300}
    requires Next(m, env).stop == None
    ensures Effects(m, env, Next(m, env))
  {
    hide Collect, CollectFrom, ParseAnswer;
    FewTaken(Next(m, env).actions);
  }

  lemma PassEffects(m: Machine, env: Env, t: Talk, s: Session)
    requires Sound(m, t, s) && !env.poll.ClosedCmds?
    requires Next(m, env).stop == None
    ensures Effects(m, env, Next(m, env))
  {
    hide Next, Effects;
    match m.state {
      case Idle => IdleEffects(m, env, t);
      case SendKw => SendEffects(m, env, t);
      case SendP300 => SendEffects(m, env, t);
      case RecvKw => RecvKwEffects(m, env, t);
      case Wait => WaitEffects(m, env, t);
      case SendP300Ack => WaitEffects(m, env, t);
      case RecvP300 => RecvP300Effects(m, env, t);
      case _ => QuietEffects(m, env, t);
    }
  }

  lemma HappenKeeps(s: System, e: Event, past: seq<Action>)
    requires Holds(s, past)
    ensures var o := Happen(s, e);
            o.stop == None ==> Holds(o.next, past + o.actions)
  {
    hide Next, Sound;
    var o := Happen(s, e);
    if o.stop == None {
      if Enabled(s, e) && e.Pass? {
        NextKeepsPast(s.machine, e.env, past);
        PassEffects(s.machine, e.env, Conversation(past), SessionOf(past));
        PassConsistent(s, e);
      } else {
        assert past + o.actions == past;
        OthersConsistent(s, e);
      }
    }
  }

  lemma PassConsistent(s: System, e: Event)
    requires Consistent(s) && e.Pass? && Enabled(s, e)
    requires Effects(s.machine, e.env, Next(s.machine, e.env))
    ensures Consistent(Happen(s, e).next)
  {
    hide Next, Takes, Gives;
    var s' := Happen(s, e).next;
    forall c: Caller | !s'.PhaseOf(c).Away?
      ensures s'.lock == Some(c)
    {
      assert !s.PhaseOf(c).Away?;
    }
  }

  lemma OthersConsistent(s: System, e: Event)
    requires Consistent(s) && !(e.Pass? && Enabled(s, e))
    ensures Consistent(Happen(s, e).next)
  {
    var s' := Happen(s, e).next;
    forall c: Caller | !s'.PhaseOf(c).Away?
      ensures s'.lock == Some(c)
    {
      assert s.lock == None || c == e.caller || !s.PhaseOf(c).Away?;
    }
  }

  // ------------------------------------------------------------------- theorem

  /**
   * In every reachable state of a live connection at most one caller is past its send; if the engine
   * is blocked on a result, that caller waits for exactly this result; every result that was taken
   * answers its taker's command; and while a KW answer is awaited no caller offers a command, so the
   * poll before that result never finds one.
   */
  lemma CallersAndEngine(canP300: bool, now: int, events: seq<Event>)
    ensures var r := Run(Happen, Begin(canP300, now), events);
            var s := r.next;
            r.stop == None ==>
              && (forall c: Caller, d: Caller :: s.PhaseOf(c).Awaiting? && s.PhaseOf(d).Awaiting? ==> c == d)
              && (s.sending.Some? ==>
                    exists c: Caller :: s.PhaseOf(c).Awaiting? && s.PhaseOf(c).cmd.id == s.sending.value.id)
              && (forall x :: x in s.receipts ==> x.result.id == x.cmd.id)
              && (s.machine.state == RecvKw ==> forall c: Caller :: !s.PhaseOf(c).Offering?)
  {
    hide Next, Happen, Holds;
    var inv := (s: System, past: seq<Action>) => Holds(s, past);
    var fin := (s: System, past: seq<Action>) => true;
    BeginHolds(canP300, now);
    forall s, past, e | inv(s, past)
      ensures Kept(Happen(s, e), past, inv, fin)
    {
      HappenKeeps(s, e, past);
    }
    RunKeeps(Happen, inv, fin, Begin(canP300, now), [], events);
    var r := Run(Happen, Begin(canP300, now), events);
    if r.stop == None {
      HoldsMeans(r.next, [] + r.actions);
    }
  }

  lemma BeginHolds(canP300: bool, now: int)
    ensures Holds(Begin(canP300, now), [])
  {
  }

  lemma HoldsMeans(s: System, past: seq<Action>)
    requires Holds(s, past)
    ensures forall c: Caller, d: Caller :: s.PhaseOf(c).Awaiting? && s.PhaseOf(d).Awaiting? ==> c == d
    ensures s.sending.Some? ==>
              exists c: Caller :: s.PhaseOf(c).Awaiting? && s.PhaseOf(c).cmd.id == s.sending.value.id
    ensures forall x :: x in s.receipts ==> x.result.id == x.cmd.id
    ensures s.machine.state == RecvKw ==> forall c: Caller :: !s.PhaseOf(c).Offering?
  {
  }
}
