/** The closed loop makes progress: every list of commands is served, and what cannot be served is known. */
module Progress {
  import opened Bytes
  import opened Telegram
  import opened Link
  import opened Runs
  import opened Engine
  import opened EngineSafety
  import opened Refinement

  // ------------------------------------------------------------- back to waiting

  /** Every move of the list happens. */
  ghost predicate AllGo(w: World, moves: seq<Move>)
    decreases |moves|
  {
    moves != [] ==> Goes(w, moves[0]) && AllGo(Tick(w, moves[0]).next, moves[1..])
  }

  /**
   * Whatever the surroundings choose, as many moves as the machine is passes away from the wait state
   * lead there; none of them is refused and none accepts a command.
   */
  lemma {:induction false} WaitIsReached(w: World, s: Spec, moves: seq<Move>)
    requires Simulates(w, s) && AllGo(w, moves) && |moves| == PassesToWait(w.machine.state)
    ensures var r := Run(Tick, w, moves);
            r.stop == None && r.next.machine.state == Wait && Acceptances(r.actions) == [] &&
            Simulates(r.next, Fold(Expect, s, r.actions))
    decreases |moves|
  {
    hide Tick, Simulates, Goes;
    if moves == [] {
      AtWait(w, s);
    } else {
      var o := Tick(w, moves[0]);
      AwayFromWait(w, moves[0], s);
      var s' := Fold(Expect, s, o.actions);
      WaitIsReached(o.next, s', moves[1..]);
      var r := Run(Tick, o.next, moves[1..]);
      FoldConcat(Expect, s, o.actions, r.actions);
      NoAcceptances(o.actions);
      AcceptancesConcat(o.actions, r.actions);
    }
  }

  lemma AtWait(w: World, s: Spec)
    requires Simulates(w, s)
    ensures PassesToWait(w.machine.state) == 0 <==> w.machine.state == Wait
  {
  }

  lemma AwayFromWait(w: World, move: Move, s: Spec)
    requires Simulates(w, s) && Goes(w, move) && PassesToWait(w.machine.state) > 0
    ensures var o := Tick(w, move);
            && o.stop == None && Simulates(o.next, Fold(Expect, s, o.actions))
            && PassesToWait(o.next.machine.state) + 1 == PassesToWait(w.machine.state)
            && (forall i :: 0 <= i < |o.actions| ==> !o.actions[i].Accepted?)
            && o.next.machine.lastSyn == (if w.machine.state == WaitAck then move.env.after else w.machine.lastSyn)
  {
    hide Tick, Goes, Simulates;
    AtWait(w, s);
    TickKeeps(w, move, s);
    SimulatesSpec(w, s);
    StaysInside(s, Tick(w, move).actions);
  }

  lemma {:induction false} StaysInside(s: Spec, actions: seq<Action>)
    requires !s.Outside? && forall i :: 0 <= i < |actions| ==> !actions[i].Accepted?
    ensures !Fold(Expect, s, actions).Outside?
    decreases |actions|
  {
    if actions != [] {
      hide Fits, Serve;
      StaysInside(Expect(s, actions[0]), actions[1..]);
    }
  }

  lemma {:induction false} NoAcceptances(actions: seq<Action>)
    requires forall i :: 0 <= i < |actions| ==> !actions[i].Accepted?
    ensures Acceptances(actions) == []
  {
    if actions != [] {
      NoAcceptances(actions[..|actions| - 1]);
    }
  }

  // ------------------------------------------------------------ moves that happen

  /** At any time the surroundings can let the machine pass, offering a command or not. */
  function Moving(w: World, poll: Poll, now: int): Move {
    var env := Env(false, false, [], true, poll, FromCommands, now, now);
    Move(env, 0, Undelayed(Flatten(Respond(w.mem, Transmitted(Next(w.machine, env).actions), 0).reply)))
  }

  lemma MovingGoes(w: World, poll: Poll, now: int)
    requires !poll.ClosedCmds?
    ensures Goes(w, Moving(w, poll, now))
  {
    hide Respond, Next;
    var env := Env(false, false, [], true, poll, FromCommands, now, now);
    UndelayedPaced(Respond(w.mem, Transmitted(Next(w.machine, env).actions), 0).reply);
  }

  lemma {:induction false} LetPass(w: World, s: Spec, now: int) returns (moves: seq<Move>)
    requires Simulates(w, s)
    requires w.machine.lastSyn == now
    ensures |moves| == PassesToWait(w.machine.state) && AllGo(w, moves)
    ensures Run(Tick, w, moves).next.machine.lastSyn == now
    decreases PassesToWait(w.machine.state)
  {
    hide Tick, Simulates, Goes, Moving;
    if PassesToWait(w.machine.state) == 0 {
      moves := [];
    } else {
      var move := Moving(w, NoCmd, now);
      MovingGoes(w, NoCmd, now);
      MovingNow(w, NoCmd, now);
      AwayFromWait(w, move, s);
      var o := Tick(w, move);
      var rest := LetPass(o.next, Fold(Expect, s, o.actions), now);
      moves := [move] + rest;
      assert moves[1..] == rest;
    }
  }

  lemma MovingNow(w: World, poll: Poll, now: int)
    ensures Moving(w, poll, now).env == Env(false, false, [], true, poll, FromCommands, now, now)
  {
  }

  /** A waiting machine that is offered a command takes it. */
  ghost predicate Holds(w: World, cmd: FsmCmd) {
    var m := w.machine;
    m.state == SendP300 && m.hasCmd && m.cmd == cmd && m.link == [] && m.canP300 && m.failCount == 0
  }

  lemma TakesOffer(w: World, s: Spec, cmd: FsmCmd, now: int)
    requires Simulates(w, s) && w.machine.state == Wait && w.machine.lastSyn == now
    ensures var move := Moving(w, Offer(cmd), now);
            var o := Tick(w, move);
            && Goes(w, move) && o.stop == None && o.actions == [Accepted(cmd)]
            && Holds(o.next, cmd) && o.next.mem == w.mem && o.next.machine.lastSyn == now
  {
    hide Tick, Goes, Moving, Next;
    var move := Moving(w, Offer(cmd), now);
    MovingGoes(w, Offer(cmd), now);
    MovingNow(w, Offer(cmd), now);
    WaitNext(w.machine, move.env);
    TickSilent(w, move, Next(w.machine, move.env));
  }

  ghost predicate Waits(w: World, now: int) {
    w.machine.state == Wait && w.machine.lastSyn == now
  }

  lemma StartRefines(mem: Memory, now: int, moves: seq<Move>)
    ensures var r := Run(Tick, World(Start(true, now), mem), moves);
            (forall c :: c in Acceptances(r.actions) ==> Fits(c)) ==> Refined(mem, r)
  {
    hide Tick, Fits, Refined;
    StartFits(mem, now);
    QuietRefines(World(Start(true, now), mem), moves);
  }

  lemma {:induction false} ListAccepted(mem: Memory, now: int, cmds: seq<FsmCmd>) returns (moves: seq<Move>)
    requires forall c :: c in cmds ==> Fits(c)
    ensures |moves| == 5 + 5 * |cmds|
    ensures var r := Run(Tick, World(Start(true, now), mem), moves);
            r.stop == None && Waits(r.next, now) && Acceptances(r.actions) == cmds
  {
    hide Tick, Simulates, Goes, Fits, Next;
    var w := World(Start(true, now), mem);
    if cmds == [] {
      StartFits(mem, now);
      moves := LetPass(w, Spec(mem, []), now);
      WaitIsReached(w, Spec(mem, []), moves);
    } else {
      hide Waits, Run, SpecOf, Acceptances;
      var n := |cmds| - 1;
      var before := ListAccepted(mem, now, cmds[..n]);
      var r := Run(Tick, w, before);
      StartRefines(mem, now, before);
      var one := ServesNext(r.next, SpecOf(mem, r.actions), cmds[n], now);
      moves := before + one;
      RunSplit(Tick, w, before, one);
      AcceptancesConcat(r.actions, Run(Tick, r.next, one).actions);
      assert cmds == cmds[..n] + [cmds[n]];
    }
  }

  /** Every list of fitting commands is served: five passes to connect, five for each command. */
  lemma EveryListIsServed(mem: Memory, now: int, cmds: seq<FsmCmd>) returns (moves: seq<Move>)
    requires forall c :: c in cmds ==> Fits(c)
    ensures |moves| == 5 + 5 * |cmds|
    ensures var r := Run(Tick, World(Start(true, now), mem), moves);
            && r.stop == None && Waits(r.next, now) && Simulates(r.next, SpecOf(mem, r.actions))
            && Acceptances(r.actions) == cmds && Deliveries(r.actions) == Results(mem, cmds) && r.next.mem == MemAfter(mem, cmds)
  {
    hide Tick, Simulates, Fits, Run, SpecOf, Acceptances, Deliveries, Results, MemAfter;
    moves := ListAccepted(mem, now, cmds);
    StartRefines(mem, now, moves);
    var r := Run(Tick, World(Start(true, now), mem), moves);
    WaitingIsIdle(r.next, SpecOf(mem, r.actions));
  }

  lemma WaitingIsIdle(w: World, s: Spec)
    requires Simulates(w, s) && w.machine.state == Wait
    ensures !Pending(w.machine)
  {
  }

  lemma ServesNext(w: World, s: Spec, cmd: FsmCmd, now: int) returns (moves: seq<Move>)
    requires Simulates(w, s) && Waits(w, now) && Fits(cmd)
    ensures |moves| == 5
    ensures var r := Run(Tick, w, moves);
            r.stop == None && Waits(r.next, now) && Acceptances(r.actions) == [cmd]
  {
    hide Tick, Goes, Moving, Fits;
    TakesOffer(w, s, cmd, now);
    var first := Moving(w, Offer(cmd), now);
    var o := Tick(w, first);
    var s' := HeldSpec(o.next, cmd);
    hide Simulates;
    var rest := LetPass(o.next, s', now);
    WaitIsReached(o.next, s', rest);
    moves := [first] + rest;
    assert moves[1..] == rest;
    AcceptancesConcat(o.actions, Run(Tick, o.next, rest).actions);
    assert Acceptances([Accepted(cmd)]) == [] + [cmd];
  }

  lemma HeldSpec(w: World, cmd: FsmCmd) returns (s: Spec)
    requires Holds(w, cmd) && Fits(cmd)
    ensures Simulates(w, s) && s.due == [FsmResult(cmd.id, None, Serve(w.mem, RequestOf(cmd)).body)]
  {
    var v := Serve(w.mem, RequestOf(cmd));
    s := Spec(v.mem, [FsmResult(cmd.id, None, v.body)]);
  }

  // ---------------------------------------------------- answered, and never answered

  /** The answer fits P300, or at least the request does. */
  predicate Answerable(cmd: FsmCmd) {
    Encodable(cmd) && (cmd.command in {P300_READ, KW_READ} || |cmd.args| <= 250)
  }

  /** Any list of fitting commands, and then any command at all, fitting or not, is accepted. */
  lemma AnyCommandIsAccepted(mem: Memory, now: int, cmds: seq<FsmCmd>, cmd: FsmCmd) returns (moves: seq<Move>)
    requires forall c :: c in cmds ==> Fits(c)
    ensures var r := Run(Tick, World(Start(true, now), mem), moves);
            r.stop == None && Acceptances(r.actions) == cmds + [cmd] && Holds(r.next, cmd)
  {
    hide Tick, Simulates, Fits, Goes, Next, Holds, Moving, SpecOf, Deliveries, Results, MemAfter;
    var before := EveryListIsServed(mem, now, cmds);
    var w := World(Start(true, now), mem);
    var r := Run(Tick, w, before);
    var last := Moving(r.next, Offer(cmd), now);
    TakesOffer(r.next, SpecOf(mem, r.actions), cmd, now);
    moves := before + [last];
    RunStep(Tick, w, before, last);
    AcceptancesConcat(r.actions, [Accepted(cmd)]);
    assert Acceptances([Accepted(cmd)]) == [] + [cmd];
  }

  lemma {:induction false} DueIsDelivered(s: Spec, actions: seq<Action>)
    requires s.Spec? && s.due != []
    requires var s' := Fold(Expect, s, actions); s'.Spec? && s'.due == []
    ensures Delivered(s.due[0]) in actions
    decreases |actions|
  {
    if !actions[0].Delivered? {
      hide Fits, Serve;
      NotSpecStays(Expect(s, actions[0]), actions[1..]);
      DueIsDelivered(Expect(s, actions[0]), actions[1..]);
    } else {
      NotSpecStays(Expect(s, actions[0]), actions[1..]);
    }
  }

  lemma {:induction false} NotSpecStays(s: Spec, actions: seq<Action>)
    requires Fold(Expect, s, actions).Spec?
    ensures s.Spec?
    decreases |actions|
  {
    if actions != [] {
      NotSpecStays(Expect(s, actions[0]), actions[1..]);
    }
  }

  /** A fitting command is answered by its atomic result, by whichever moves happen. */
  lemma FittingIsAnswered(w: World, cmd: FsmCmd, moves: seq<Move>)
    requires Holds(w, cmd) && Fits(cmd) && AllGo(w, moves) && |moves| == 4
    ensures var r := Run(Tick, w, moves);
            r.stop == None && Delivered(FsmResult(cmd.id, None, Serve(w.mem, RequestOf(cmd)).body)) in r.actions
  {
    hide Tick, AllGo, Fits, Serve;
    var s := HeldSpec(w, cmd);
    assert PassesToWait(w.machine.state) == 4;
    hide Holds, Simulates;
    WaitIsReached(w, s, moves);
    var r := Run(Tick, w, moves);
    var s' := Fold(Expect, s, r.actions);
    WaitingIsIdle(r.next, s');
    FitsMeans(r.next, s');
    SimulatesSpec(w, s);
    DueIsDelivered(s, r.actions);
  }

  /** A read of more than 250 bytes is refused by the controller. */
  lemma LongReadSent(w: World, cmd: FsmCmd, move: Move)
    requires Holds(w, cmd) && Answerable(cmd) && !Fits(cmd) && Goes(w, move)
    ensures var o := Tick(w, move);
            && o.stop == None && o.next.machine.state == SendP300Ack && o.next.machine.cmd.id == cmd.id
            && Paced(o.next.machine.link, [[NAK]])
  {
    hide Tick, Goes, Paced, DecodeRequest, Serve;
    GoesIsFair(w, move);
    RequestRoundTrip(cmd);
    var t := PrepareP300(cmd).telegram.value;
    TickWrites(w, move, Next(w.machine, move.env), t);
    assert w.machine.link + [] == [] && [] + move.timing == move.timing;
  }

  /** The refusal is passed on. */
  lemma LongReadAcked(w: World, move: Move)
    requires w.machine.state == SendP300Ack && Paced(w.machine.link, [[NAK]]) && Goes(w, move)
    ensures Tick(w, move).actions == [Got([NAK]), Delivered(FsmResult(w.machine.cmd.id, Some(Nak), []))]
  {
    hide Tick, Goes, Paced, Collect, CollectFrom;
    GoesIsFair(w, move);
    PacedTake(w.machine.link, [[NAK]]);
    assert w.machine.link + [] == w.machine.link;
    TickSilent(w, move, Next(w.machine, move.env));
  }

  lemma LongReadIsRefused(w: World, cmd: FsmCmd) returns (moves: seq<Move>)
    requires Holds(w, cmd) && Answerable(cmd) && !Fits(cmd)
    ensures Answers(Run(Tick, w, moves).actions, cmd.id)
  {
    hide Tick, Goes, Moving, Holds, Answerable, Fits;
    var m1 := Moving(w, NoCmd, 0);
    MovingGoes(w, NoCmd, 0);
    LongReadSent(w, cmd, m1);
    var w1 := Tick(w, m1).next;
    var m2 := Moving(w1, NoCmd, 0);
    MovingGoes(w1, NoCmd, 0);
    LongReadAcked(w1, m2);
    moves := [m1, m2];
    RunTwo(Tick, w, m1, m2);
    var r := Run(Tick, w, moves);
    assert r.actions[|r.actions| - 1] == Delivered(FsmResult(cmd.id, Some(Nak), []));
  }

  /** Where a machine stands that holds a command without answer. */
  ghost predicate Doomed(m: Machine, cmd: FsmCmd) {
    if !Encodable(cmd) then Starving(m, cmd)
    else m.link == [] && ((m.state == SendP300 && m.hasCmd && m.cmd == cmd) || m.state == SendP300Ack)
  }

  lemma DoomedStep(w: World, move: Move, cmd: FsmCmd)
    requires Doomed(w.machine, cmd) && !Answerable(cmd) && Goes(w, move)
    ensures var o := Tick(w, move);
            && (o.stop == None ==> Doomed(o.next.machine, cmd))
            && forall i :: 0 <= i < |o.actions| ==> Unanswered(o.actions[i])
  {
    hide Goes;
    GoesIsFair(w, move);
    if !Encodable(cmd) {
      hide Next;
      StarvingStep(w.machine, cmd, move.env);
    } else if w.machine.state == SendP300 {
      hide Tick;
      var t := PrepareP300(cmd).telegram.value;
      LongWriteIsNoRequest(cmd);
      TickWrites(w, move, Next(w.machine, move.env), t);
      PacedNothing(move.timing);
      assert w.machine.link + [] == [] && [] + move.timing == move.timing;
    } else {
      hide CollectFrom;
      SilentLink();
      assert w.machine.link + [] == [];
    }
  }

  lemma LongWriteIsNoRequest(cmd: FsmCmd)
    requires Encodable(cmd) && !Answerable(cmd)
    ensures var t := PrepareP300(cmd).telegram;
            t.Some? && IsP300Telegram(t.value) && DecodeRequest(t.value) == None
  {
  }

  lemma SilentLink()
    ensures Collect(1, []).err.Some? && Collect(1, []).bytes == []
  {
    CollectReads(1, []);
  }

  /** In the closed loop an accepted command is answered, if moves go on happening, exactly if it is answerable. */
  lemma AnsweredIff(w: World, cmd: FsmCmd)
    requires Holds(w, cmd)
    ensures Answerable(cmd) <==> exists moves :: Answers(Run(Tick, w, moves).actions, cmd.id)
  {
    hide Tick;
    if Answerable(cmd) {
      if Fits(cmd) {
        var moves := FourMoves(w, cmd);
        FittingIsAnswered(w, cmd, moves);
        assert Answers(Run(Tick, w, moves).actions, cmd.id);
      } else {
        var moves := LongReadIsRefused(w, cmd);
      }
    } else {
      forall moves
        ensures !Answers(Run(Tick, w, moves).actions, cmd.id)
      {
        NeverAnswered(w, cmd, moves);
      }
    }
  }

  lemma FourMoves(w: World, cmd: FsmCmd) returns (moves: seq<Move>)
    requires Holds(w, cmd) && Fits(cmd)
    ensures |moves| == 4 && AllGo(w, moves)
  {
    var s := HeldSpec(w, cmd);
    moves := LetPass(w, s, w.machine.lastSyn);
  }

  lemma NeverAnswered(w: World, cmd: FsmCmd, moves: seq<Move>)
    requires Holds(w, cmd) && !Answerable(cmd)
    ensures var r := Run(Tick, w, moves);
            forall i :: 0 <= i < |r.actions| ==> Unanswered(r.actions[i])
  {
    hide Tick, Goes;
    var fin := (w: World, past: seq<Action>) => forall i :: 0 <= i < |past| ==> Unanswered(past[i]);
    var inv := (w: World, past: seq<Action>) => Doomed(w.machine, cmd) && fin(w, past);
    forall w, past, move | inv(w, past)
      ensures Kept(Tick(w, move), past, inv, fin)
    {
      DoomedTick(w, move, cmd);
      assert forall a :: a in past + Tick(w, move).actions ==> a in past || a in Tick(w, move).actions;
    }
    assert Doomed(w.machine, cmd);
    assert inv(w, []);
    RunKeeps(Tick, inv, fin, w, [], moves);
    assert [] + Run(Tick, w, moves).actions == Run(Tick, w, moves).actions;
  }

  lemma DoomedTick(w: World, move: Move, cmd: FsmCmd)
    requires Doomed(w.machine, cmd) && !Answerable(cmd)
    ensures var o := Tick(w, move);
            && (o.stop == None ==> Doomed(o.next.machine, cmd))
            && forall i :: 0 <= i < |o.actions| ==> Unanswered(o.actions[i])
  {
    if Goes(w, move) {
      DoomedStep(w, move, cmd);
    }
  }
}
