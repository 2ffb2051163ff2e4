/** The P300 engine in a closed loop with a controller behaves like an atomic memory. */
module Refinement {
  import opened Bytes
  import opened Telegram
  import opened Link
  import opened Runs
  import opened Engine
  import opened EngineSafety

  // --------------------------------------------------------------- atomic memory

  datatype Served = Served(mem: Memory, body: seq<byte>)

  /** One atomic access: a read yields the slice, a write stores its data and yields their number. */
  function Serve(mem: Memory, r: Request): Served {
    match r
    case ReadRequest(a, n) => Served(mem, Slice(mem, Bytes2Addr(a), n))
    case WriteRequest(a, data) => Served(Store(mem, Bytes2Addr(a), data), [|data| % 0x100])
  }

  /** The command is encodable in P300 and its answer fits the one-byte length field. */
  predicate Fits(cmd: FsmCmd) {
    && Encodable(cmd)
    && match RequestOf(cmd)
       case ReadRequest(_, n) => n <= 250
       case WriteRequest(_, data) => |data| <= 250
  }

  function Results(mem: Memory, cmds: seq<FsmCmd>): seq<FsmResult> {
    if cmds == [] then []
    else
      Results(mem, cmds[..|cmds| - 1]) +
      [FsmResult(cmds[|cmds| - 1].id, None, Serve(MemAfter(mem, cmds[..|cmds| - 1]), RequestOf(cmds[|cmds| - 1])).body)]
  }

  function MemAfter(mem: Memory, cmds: seq<FsmCmd>): Memory {
    if cmds == [] then mem
    else Serve(MemAfter(mem, cmds[..|cmds| - 1]), RequestOf(cmds[|cmds| - 1])).mem
  }

  /**
   * The specification reads the trace: it serves a command when it is accepted and knows the results
   * due. What follows a command that does not fit is outside of what it specifies.
   */
  datatype Spec = Spec(mem: Memory, due: seq<FsmResult>) | Violated | Outside

  function Expect(s: Spec, a: Action): Spec {
    if !s.Spec? then s
    else
      match a
      case Accepted(cmd) =>
        var v := Serve(s.mem, RequestOf(cmd));
        if Fits(cmd) then Spec(v.mem, s.due + [FsmResult(cmd.id, None, v.body)]) else Outside
      case Delivered(r) => if s.due != [] && s.due[0] == r then s.(due := s.due[1..]) else Violated
      case Wrote(_) => s
      case Got(_) => s
      case Drained => s
  }

  function SpecOf(mem: Memory, trace: seq<Action>): Spec {
    Fold(Expect, Spec(mem, []), trace)
  }

  // ----------------------------------------------------------------- the controller

  function AnswerTo(mem: Memory, r: Request, seqBits: nat): Answer {
    match r
    case ReadRequest(a, n) => Answer(seqBits, P300_READ, a, n, Slice(mem, Bytes2Addr(a), n))
    case WriteRequest(a, data) => Answer(seqBits, P300_WRITE, a, |data| % 0x100, [])
  }

  /** What the controller sends, in the pieces in which the engine collects it. */
  datatype Response = Response(mem: Memory, reply: seq<seq<byte>>)

  function Pieces(a: Answer): seq<seq<byte>>
    requires a.Valid()
  {
    [[SO3, a.Length()], a.Tail()]
  }

  /**
   * After a reset the controller calls for its partner; the two calls the engine waits for are its
   * reply. It acknowledges a synchronisation, and acknowledges, serves and answers a request.
   */
  function Respond(mem: Memory, bytes: seq<byte>, seqBits: nat): (r: Response)
    ensures [] !in r.reply
  {
    if bytes == [EOT] then Response(mem, [[ENQ], [ENQ]])
    else if bytes == SYNC then Response(mem, [[ACK]])
    else
      match DecodeRequest(bytes)
      case None => Response(mem, [])
      case Some(r) =>
        var a := AnswerTo(mem, r, seqBits);
        if a.Valid() then Response(Serve(mem, r).mem, [[ACK]] + Pieces(a)) else Response(mem, [[NAK]])
  }

  // -------------------------------------------------------------- the closed loop

  datatype World = World(machine: Machine, mem: Memory)

  /** What the surroundings choose: commands and clock, the sequence bits of the answer, its timing. */
  datatype Move = Move(env: Env, seqBits: nat, timing: seq<LinkEvent>) {
    predicate Fair() {
      && !env.done && !env.linkError && env.arriving == [] && env.writeOk
      && !env.poll.ClosedCmds? && seqBits < 8
    }
  }

  function Transmitted(actions: seq<Action>): seq<byte> {
    if actions == [] then []
    else (if actions[0].Wrote? then actions[0].bytes else []) + Transmitted(actions[1..])
  }

  /** The line works, and every piece of the controller's reply arrives in time for its collection. */
  ghost predicate Goes(w: World, move: Move) {
    move.Fair() &&
    Paced(move.timing, Respond(w.mem, Transmitted(Next(w.machine, move.env).actions), move.seqBits).reply)
  }

  /** One pass of the engine, after which the controller reacts. Other moves do not happen. */
  ghost function Tick(w: World, move: Move): Outcome<World, Action, Stop> {
    if !Goes(w, move) then Outcome(w, [], None)
    else
      var o := Next(w.machine, move.env);
      var r := Respond(w.mem, Transmitted(o.actions), move.seqBits);
      Outcome(World(o.next.(link := o.next.link + move.timing), r.mem), o.actions, o.stop)
  }

  // --------------------------------------------------------------------- lemmas

  predicate Quiescent(s: VitoState) {
    s in {Unknown, Reset, SwP300, Wait, RecvP300Ack}
  }

  /** The answer that is on its way spells out the result that is due. */
  predicate Carries(m: Machine, a: Answer, due: seq<FsmResult>) {
    && a.Valid() && a.command == m.cmd.command && a.count == m.cmd.resultLen
    && due == [FsmResult(m.cmd.id, None, if m.cmd.command == P300_WRITE then [a.count] else a.payload)]
  }

  /** Engine, link and controller stand as the specification does. */
  ghost predicate Simulates(w: World, s: Spec) {
    var m := w.machine;
    && s.Spec? && m.canP300 && m.failCount == 0
    && match m.state
       case SendP300 =>
         var v := Serve(w.mem, RequestOf(m.cmd));
         m.hasCmd && Fits(m.cmd) && m.link == [] && s == Spec(v.mem, [FsmResult(m.cmd.id, None, v.body)])
       case SendP300Ack =>
         m.hasCmd && s.mem == w.mem && exists a: Answer :: Carries(m, a, s.due) && Paced(m.link, [[ACK]] + Pieces(a))
       case RecvP300 =>
         m.hasCmd && s.mem == w.mem && exists a: Answer :: Carries(m, a, s.due) && Paced(m.link, Pieces(a))
       case ResetAck =>
         !m.hasCmd && s == Spec(w.mem, []) && Paced(m.link, [[ENQ], [ENQ]])
       case Idle =>
         !m.hasCmd && s == Spec(w.mem, []) && Paced(m.link, [[ENQ]])
       case WaitAck =>
         !m.hasCmd && s == Spec(w.mem, []) && Paced(m.link, [[ACK]])
       case _ =>
         Quiescent(m.state) && !m.hasCmd && s == Spec(w.mem, []) && m.link == []
  }

  /** The number of passes until the machine waits for commands again. */
  function PassesToWait(s: VitoState): nat {
    match s
    case Unknown => 5
    case Reset => 5
    case ResetAck => 4
    case Idle => 3
    case SwP300 => 2
    case WaitAck => 1
    case SendP300 => 4
    case SendP300Ack => 3
    case RecvP300 => 2
    case RecvP300Ack => 1
    case _ => 0
  }

  /** A pass outside the wait state accepts nothing and comes one closer to it; only `WaitAck` reads the clock. */
  predicate Advances(m: Machine, env: Env, o: Outcome<World, Action, Stop>) {
    m.state != Wait ==>
      && (forall i :: 0 <= i < |o.actions| ==> !o.actions[i].Accepted?)
      && PassesToWait(o.next.machine.state) + 1 == PassesToWait(m.state)
      && o.next.machine.lastSyn == (if m.state == WaitAck then env.after else m.lastSyn)
  }

  ghost predicate TickFits(w: World, move: Move, s: Spec) {
    var o := Tick(w, move);
    var s' := Fold(Expect, s, o.actions);
    && (s'.Outside? || (s'.Spec? && o.stop == None && Simulates(o.next, s')))
    && Advances(w.machine, move.env, o)
  }

  lemma TransmittedFew(actions: seq<Action>)
    ensures |actions| == 0 ==> Transmitted(actions) == []
    ensures |actions| == 1 ==> Transmitted(actions) == if actions[0].Wrote? then actions[0].bytes else []
    ensures |actions| <= 3 && (forall i :: 0 <= i < |actions| ==> !actions[i].Wrote?) ==> Transmitted(actions) == []
  {
    if |actions| > 0 {
      assert |actions[1..]| == 0 ==> Transmitted(actions[1..]) == [];
    }
  }

  /** A pass that writes nothing leaves the controller and the link to the engine alone. */
  lemma TickSilent(w: World, move: Move, o: Pass)
    requires Goes(w, move) && o == Next(w.machine, move.env)
    requires |o.actions| <= 3 && forall i :: 0 <= i < |o.actions| ==> !o.actions[i].Wrote?
    ensures Tick(w, move) == Outcome(World(o.next, w.mem), o.actions, o.stop)
  {
    hide Next;
    TransmittedFew(o.actions);
    assert Respond(w.mem, [], move.seqBits) == Response(w.mem, []);
    assert o.next.link + [] == o.next.link;
  }

  /** A pass that writes is followed by the controller's reply. */
  lemma TickWrites(w: World, move: Move, o: Pass, bytes: seq<byte>)
    requires Goes(w, move) && o == Next(w.machine, move.env) && o.actions == [Wrote(bytes)]
    ensures var r := Respond(w.mem, bytes, move.seqBits);
            Paced(move.timing, r.reply) &&
            Tick(w, move) == Outcome(World(o.next.(link := o.next.link + move.timing), r.mem), o.actions, o.stop)
  {
    hide Next, Respond, Paced;
    TransmittedFew(o.actions);
  }

  lemma TickWait(w: World, move: Move, s: Spec)
    requires Simulates(w, s) && Goes(w, move) && w.machine.state == Wait
    ensures TickFits(w, move, s)
  {
    hide Goes, Next, Tick, Serve, RequestOf, Paced, Fits;
    GoesIsFair(w, move);
    WaitNext(w.machine, move.env);
    var o := Next(w.machine, move.env);
    TickSilent(w, move, o);
    FoldFew(Expect, s, o.actions);
  }

  /** From the wait state with a silent link the machine resynchronises or takes a command. */
  lemma WaitNext(m: Machine, env: Env)
    requires m.state == Wait && m.link == [] && !m.hasCmd
    requires !env.done && !env.linkError && env.arriving == [] && !env.poll.ClosedCmds?
    ensures var o := Next(m, env);
            && o.stop == None
            && if o.actions == [] then o.next == m.(state := SwP300, prevstate := Wait)
               else env.poll.Offer? && o.actions == [Accepted(env.poll.cmd)] &&
                    o.next == m.(state := SendP300, prevstate := Wait, cmd := env.poll.cmd, hasCmd := true)
    ensures env.source == FromCommands && env.poll.Offer? && env.now - m.lastSyn <= 10_000 ==> Next(m, env).actions != []
  {
    assert m.link + [] == m.link;
  }

  /** Of a handshake one byte is read, the expected one, and the rest stays on the link. */
  lemma TickHandshake(w: World, move: Move, s: Spec)
    requires Simulates(w, s) && Goes(w, move) && w.machine.state in {ResetAck, Idle, WaitAck}
    ensures TickFits(w, move, s)
  {
    hide Tick, Collect, CollectFrom, Paced, Goes;
    assert move.Fair() by {
      GoesIsFair(w, move);
    }
    var o := Next(w.machine, move.env);
    var link := w.machine.link;
    var b := if w.machine.state == WaitAck then ACK else ENQ;
    var pieces := if w.machine.state == ResetAck then [[ENQ], [ENQ]] else [[b]];
    assert link + [] == link;
    PacedTake(link, pieces);
    assert pieces[1..] == if w.machine.state == ResetAck then [[ENQ]] else [];
    PacedNothing(Collect(1, link).rest);
    TickSilent(w, move, o);
    FoldFew(Expect, s, o.actions);
  }

  lemma GoesIsFair(w: World, move: Move)
    requires Goes(w, move)
    ensures move.Fair()
  {
  }

  lemma PacedNothing(link: seq<LinkEvent>)
    ensures Paced(link, []) ==> link == []
  {
  }

  lemma TickAck(w: World, move: Move, s: Spec)
    requires Simulates(w, s) && Goes(w, move) && w.machine.state == SendP300Ack
    ensures TickFits(w, move, s)
  {
    hide Tick, Collect, CollectFrom, Paced, Goes;
    GoesIsFair(w, move);
    var m := w.machine;
    var o := Next(m, move.env);
    assert m.link + [] == m.link;
    var a: Answer :| Carries(m, a, s.due) && Paced(m.link, [[ACK]] + Pieces(a));
    PacedTake(m.link, [[ACK]] + Pieces(a));
    assert ([[ACK]] + Pieces(a))[1..] == Pieces(a);
    TickSilent(w, move, o);
    FoldFew(Expect, s, o.actions);
    CarriesSame(m, o.next, a, s.due);
  }

  lemma CarriesSame(m: Machine, n: Machine, a: Answer, due: seq<FsmResult>)
    requires Carries(m, a, due) && m.cmd == n.cmd
    ensures Carries(n, a, due)
  {
  }

  /** Where the engine stands after the two collections of an answer. */
  function AnswerRest(link: seq<LinkEvent>, a: Answer): seq<LinkEvent>
    requires a.Valid()
  {
    Collect(a.Length() as int + 1, Collect(2, link).rest).rest
  }

  ghost predicate AnswerCollected(link: seq<LinkEvent>, a: Answer)
    requires a.Valid()
  {
    var c1 := Collect(2, link);
    var c2 := Collect(a.Length() as int + 1, c1.rest);
    c1.err == None && c1.bytes == [SO3, a.Length()] && c2.err == None && c2.bytes == a.Tail()
  }

  lemma AnswerDelivered(m: Machine, env: Env, a: Answer, due: seq<FsmResult>)
    requires Carries(m, a, due) && AnswerCollected(m.link, a)
    ensures OnRecvP300(m, env) ==
            Go(m.(state := RecvP300Ack, hasCmd := false, link := AnswerRest(m.link, a)),
               [Got([SO3, a.Length()]), Got(a.Tail()), Delivered(due[0])])
  {
    hide Collect, CollectFrom, ParseAnswer;
    AnswerParses(m.cmd, a);
  }

  /** The engine reads the whole answer and hands over the result that is due. */
  lemma ReadsAnswer(m: Machine, env: Env, a: Answer, due: seq<FsmResult>)
    requires Carries(m, a, due) && Paced(m.link, Pieces(a))
    ensures OnRecvP300(m, env) ==
            Go(m.(state := RecvP300Ack, hasCmd := false, link := []),
               [Got([SO3, a.Length()]), Got(a.Tail()), Delivered(due[0])])
  {
    hide Collect, CollectFrom, Paced, OnRecvP300;
    PacedTake(m.link, Pieces(a));
    var rest := Collect(2, m.link).rest;
    assert Pieces(a)[1..] == [a.Tail()] && [a.Tail()][1..] == [];
    PacedTake(rest, [a.Tail()]);
    PacedNothing(Collect(|a.Tail()|, rest).rest);
    AnswerDelivered(m, env, a, due);
  }

  lemma TickRecv(w: World, move: Move, s: Spec)
    requires Simulates(w, s) && Goes(w, move) && w.machine.state == RecvP300
    ensures TickFits(w, move, s)
  {
    hide Tick, Paced, Goes;
    GoesIsFair(w, move);
    var m := w.machine;
    var a: Answer :| Carries(m, a, s.due) && Paced(m.link, Pieces(a));
    TickRecvOf(w, move, s, a);
  }

  lemma TickRecvOf(w: World, move: Move, s: Spec, a: Answer)
    requires Simulates(w, s) && Goes(w, move) && move.Fair() && w.machine.state == RecvP300
    requires Carries(w.machine, a, s.due) && Paced(w.machine.link, Pieces(a))
    ensures TickFits(w, move, s)
  {
    hide Tick, Paced, Goes, Next, OnRecvP300, Carries;
    var m := w.machine;
    var m1 := m.(prevstate := m.state);
    CarriesSame(m, m1, a, s.due);
    ReadsAnswer(m1, move.env, a, s.due);
    OneDue(m, a, s.due);
    NextRecv(m, move.env);
    var o := Next(m, move.env);
    TickSilent(w, move, o);
    FoldFew(Expect, s, o.actions);
  }

  lemma OneDue(m: Machine, a: Answer, due: seq<FsmResult>)
    requires Carries(m, a, due)
    ensures |due| == 1
  {
  }

  lemma TickSend(w: World, move: Move, s: Spec)
    requires Simulates(w, s) && Goes(w, move) && w.machine.state in {Unknown, Reset, SwP300, RecvP300Ack}
    ensures TickFits(w, move, s)
  {
    hide Tick, Paced, Goes;
    GoesIsFair(w, move);
    var o := Next(w.machine, move.env);
    var bytes := match w.machine.state
                 case SwP300 => SYNC
                 case RecvP300Ack => [ACK]
                 case _ => [EOT];
    TickWrites(w, move, o, bytes);
    FoldFew(Expect, s, o.actions);
    assert [] + move.timing == move.timing && w.machine.link + [] == w.machine.link;
    PacedNothing(move.timing);
  }

  /** The controller understands the telegram, serves it, and its answer carries the result. */
  lemma RequestServed(mem: Memory, cmd: FsmCmd, seqBits: nat)
    requires Fits(cmd) && seqBits < 8
    ensures var p := PrepareP300(cmd);
            var r := RequestOf(cmd);
            var a := AnswerTo(mem, r, seqBits);
            && p.telegram.Some? && a.Valid()
            && Respond(mem, p.telegram.value, seqBits) == Response(Serve(mem, r).mem, [[ACK]] + Pieces(a))
            && p.cmd.id == cmd.id && a.command == p.cmd.command && a.count == p.cmd.resultLen
            && Serve(mem, r).body == if p.cmd.command == P300_WRITE then [a.count] else a.payload
  {
    RequestRoundTrip(cmd);
  }

  lemma TickRequest(w: World, move: Move, s: Spec)
    requires Simulates(w, s) && Goes(w, move) && w.machine.state == SendP300
    ensures TickFits(w, move, s)
  {
    hide Tick, Paced, PrepareP300, Respond, AnswerTo, Serve, Goes;
    GoesIsFair(w, move);
    var m := w.machine;
    var o := Next(m, move.env);
    RequestServed(w.mem, m.cmd, move.seqBits);
    TickWrites(w, move, o, PrepareP300(m.cmd).telegram.value);
    FoldFew(Expect, s, o.actions);
    assert [] + move.timing == move.timing && m.link + [] == m.link;
    assert Carries(o.next, AnswerTo(w.mem, RequestOf(m.cmd), move.seqBits), s.due);
  }

  lemma TickKeeps(w: World, move: Move, s: Spec)
    requires Simulates(w, s) && Goes(w, move)
    ensures TickFits(w, move, s)
  {
    hide Tick, TickFits, Goes;
    match w.machine.state {
      case Wait => TickWait(w, move, s);
      case ResetAck => TickHandshake(w, move, s);
      case Idle => TickHandshake(w, move, s);
      case WaitAck => TickHandshake(w, move, s);
      case SendP300Ack => TickAck(w, move, s);
      case RecvP300 => TickRecv(w, move, s);
      case SendP300 => TickRequest(w, move, s);
      case _ => TickSend(w, move, s);
    }
  }

  /** Once outside its specification, always outside. */
  lemma {:induction false} OutsideStays(actions: seq<Action>)
    ensures Fold(Expect, Outside, actions) == Outside
    decreases |actions|
  {
    if actions != [] {
      OutsideStays(actions[1..]);
    }
  }

  ghost predicate InStep(w: World, s: Spec) {
    s.Outside? || Simulates(w, s)
  }

  lemma TickKeepsPast(w: World, move: Move, mem: Memory, past: seq<Action>)
    requires InStep(w, SpecOf(mem, past))
    ensures var o := Tick(w, move);
            var s := SpecOf(mem, past + o.actions);
            InStep(o.next, s) && (o.stop.Some? ==> s.Outside?)
  {
    hide Simulates;
    FoldConcat(Expect, Spec(mem, []), past, Tick(w, move).actions);
    if SpecOf(mem, past).Outside? {
      OutsideStays(Tick(w, move).actions);
    } else if Goes(w, move) {
      TickKeeps(w, move, SpecOf(mem, past));
    } else {
      assert past + [] == past;
    }
  }

  lemma StartFits(mem: Memory, now: int)
    ensures Quiet(World(Start(true, now), mem))
  {
  }

  /** No byte of an answer is outstanding. */
  predicate Settled(m: Machine) {
    !Pending(m) && m.state !in {ResetAck, Idle, WaitAck}
  }

  lemma FitsMeans(w: World, s: Spec)
    requires Simulates(w, s)
    ensures !Pending(w.machine) ==> s == Spec(w.mem, [])
    ensures s.due == [] ==> s == Spec(w.mem, [])
    ensures Settled(w.machine) ==> w.machine.link == []
  {
  }

  // ------------------------------------------------------------------- theorems

  /** The specification's state is what these accepted commands and delivered results lead to. */
  ghost predicate Meant(mem: Memory, s: Spec, accepted: seq<FsmCmd>, delivered: seq<FsmResult>) {
    && s.Spec? && s.mem == MemAfter(mem, accepted) && delivered + s.due == Results(mem, accepted)
    && forall c :: c in accepted ==> Fits(c)
  }

  lemma MeantStep(mem: Memory, s: Spec, accepted: seq<FsmCmd>, delivered: seq<FsmResult>, a: Action)
    requires Meant(mem, s, accepted, delivered) && Expect(s, a).Spec?
    ensures a.Accepted? ==> Meant(mem, Expect(s, a), accepted + [a.cmd], delivered)
    ensures a.Delivered? ==> Meant(mem, Expect(s, a), accepted, delivered + [a.result])
    ensures !a.Accepted? && !a.Delivered? ==> Expect(s, a) == s
  {
    hide Fits, Serve, RequestOf;
    var s' := Expect(s, a);
    if a.Accepted? {
      assert (accepted + [a.cmd])[..|accepted|] == accepted;
      assert delivered + (s.due + [s'.due[|s.due|]]) == Results(mem, accepted) + [s'.due[|s.due|]];
    } else if a.Delivered? {
      assert s.due == [a.result] + s'.due;
      assert delivered + ([a.result] + s'.due) == delivered + [a.result] + s'.due;
    }
  }

  /** A trace the specification reads to the end delivers the atomic results, in order. */
  lemma {:induction false} SpecMeaning(mem: Memory, trace: seq<Action>)
    requires SpecOf(mem, trace).Spec?
    ensures Meant(mem, SpecOf(mem, trace), Acceptances(trace), Deliveries(trace))
  {
    if trace != [] {
      hide Meant, Expect;
      var before, a := trace[..|trace| - 1], trace[|trace| - 1];
      FoldLast(Expect, Spec(mem, []), trace);
      ViolatedStays(SpecOf(mem, before), a);
      SpecMeaning(mem, before);
      var accepted, delivered := Acceptances(before), Deliveries(before);
      MeantStep(mem, SpecOf(mem, before), accepted, delivered, a);
      assert accepted + [] == accepted && delivered + [] == delivered;
    }
  }

  lemma ViolatedStays(s: Spec, a: Action)
    requires Expect(s, a).Spec?
    ensures s.Spec?
  {
  }

  /** Only a command that does not fit leads outside the specification. */
  lemma {:induction false} InsideIfAllFit(mem: Memory, trace: seq<Action>)
    requires forall c :: c in Acceptances(trace) ==> Fits(c)
    ensures !SpecOf(mem, trace).Outside?
  {
    if trace != [] {
      hide Fits;
      var before, a := trace[..|trace| - 1], trace[|trace| - 1];
      FoldLast(Expect, Spec(mem, []), trace);
      InsideIfAllFit(mem, before);
    }
  }

  /** Nothing is due, and engine, link and controller agree about it. */
  ghost predicate Quiet(w: World) {
    Simulates(w, Spec(w.mem, []))
  }

  /** What a run from a quiet world has done to the memory and delivered, if it stayed within the specification. */
  ghost predicate Refined(mem: Memory, o: Outcome<World, Action, Stop>) {
    var accepted, delivered := Acceptances(o.actions), Deliveries(o.actions);
    && o.stop == None
    && Simulates(o.next, SpecOf(mem, o.actions))
    && delivered <= Results(mem, accepted)
    && (|delivered| == |accepted| ==> Quiet(o.next))
    && (!Pending(o.next.machine) ==> |delivered| == |accepted|)
    && (|delivered| == |accepted| ==> delivered == Results(mem, accepted) && o.next.mem == MemAfter(mem, accepted))
    && (Settled(o.next.machine) ==> o.next.machine.link == [])
  }

  lemma QuietRefines(w: World, moves: seq<Move>)
    requires Quiet(w)
    ensures var o := Run(Tick, w, moves);
            (forall c :: c in Acceptances(o.actions) ==> Fits(c)) ==> Refined(w.mem, o)
  {
    hide Tick, Simulates, Fits;
    var mem := w.mem;
    var inv := (w: World, past: seq<Action>) => InStep(w, SpecOf(mem, past));
    var fin := (w: World, past: seq<Action>) => SpecOf(mem, past).Outside?;
    forall w, past, move | inv(w, past)
      ensures Kept(Tick(w, move), past, inv, fin)
    {
      TickKeepsPast(w, move, mem, past);
    }
    assert SpecOf(mem, []) == Spec(mem, []);
    RunKeeps(Tick, inv, fin, w, [], moves);
    var o := Run(Tick, w, moves);
    assert [] + o.actions == o.actions;
    if forall c :: c in Acceptances(o.actions) ==> Fits(c) {
      InsideIfAllFit(mem, o.actions);
      StaysRefined(mem, o);
    }
  }

  lemma StaysRefined(mem: Memory, o: Outcome<World, Action, Stop>)
    requires o.stop == None && Simulates(o.next, SpecOf(mem, o.actions))
    ensures Refined(mem, o)
  {
    hide Simulates, SpecOf;
    var s := SpecOf(mem, o.actions);
    SimulatesSpec(o.next, s);
    FitsMeans(o.next, s);
    SpecMeaning(mem, o.actions);
    ResultsCount(mem, Acceptances(o.actions));
  }

  lemma {:induction false} ResultsCount(mem: Memory, cmds: seq<FsmCmd>)
    ensures |Results(mem, cmds)| == |cmds|
  {
    if cmds != [] {
      ResultsCount(mem, cmds[..|cmds| - 1]);
    }
  }

  /**
   * The P300 byte exchange refines atomic memory. For every run from the start - any commands,
   * resynchronisations and sequence bits, and any timing that brings each piece of a reply in time for
   * its collection - in which the accepted commands fit, the machine never stops and the delivered
   * results are those of the accepted commands served one after another. Whenever no command is
   * pending all results are out and the controller's memory is the atomic one, and once the handshakes
   * are read the link is empty.
   */
  lemma ExchangeRefinesMemory(mem: Memory, now: int, moves: seq<Move>)
    ensures var r := Run(Tick, World(Start(true, now), mem), moves);
            var accepted, delivered := Acceptances(r.actions), Deliveries(r.actions);
            (forall c :: c in accepted ==> Fits(c)) ==>
              && r.stop == None
              && delivered <= Results(mem, accepted)
              && (!Pending(r.next.machine) ==> delivered == Results(mem, accepted) && r.next.mem == MemAfter(mem, accepted))
              && (Settled(r.next.machine) ==> r.next.machine.link == [])
  {
    hide Tick, Simulates, Fits;
    StartFits(mem, now);
    QuietRefines(World(Start(true, now), mem), moves);
  }

  lemma SimulatesSpec(w: World, s: Spec)
    requires Simulates(w, s)
    ensures s.Spec?
  {
  }

  // ---------------------------------------------------------- replies out of time

  predicate Calm(env: Env) {
    !env.done && !env.linkError && env.arriving == []
  }

  /** The converse for a handshake: the machine goes on exactly if the byte it waits for comes in time. */
  lemma HandshakeTimingIff(m: Machine, env: Env)
    requires Calm(env) && (m.state == WaitAck || (m.state == Idle && m.canP300))
    requires Carrying(m.link, [if m.state == WaitAck then ACK else ENQ])
    ensures Next(m, env).stop == None <==> Paced(m.link, [[if m.state == WaitAck then ACK else ENQ]])
  {
    hide Collect, CollectFrom, Paced;
    var b := if m.state == WaitAck then ACK else ENQ;
    assert m.link + [] == m.link;
    FlattenFew([b], [b]);
    assert [[b]][1..] == [];
    PacedIff(m.link, [[b]]);
    assert Collects(Collect(1, m.link).rest, []);
  }

  /** The same for the two calls after a reset. */
  lemma ResetTimingIff(m: Machine, e1: Env, e2: Env)
    requires m.state == ResetAck && m.canP300 && Calm(e1) && Calm(e2) && Carrying(m.link, [ENQ, ENQ])
    ensures Run(Next, m, [e1, e2]).stop == None <==> Paced(m.link, [[ENQ], [ENQ]])
  {
    hide Collect, CollectFrom, Paced, Carrying;
    var pieces := [[ENQ], [ENQ]];
    assert pieces[1..] == [[ENQ]] && [[ENQ]][1..] == [];
    FlattenFew([ENQ], [ENQ]);
    assert [ENQ] + [ENQ] == [ENQ, ENQ];
    PacedIff(m.link, pieces);
    RunTwo(Next, m, e1, e2);
    assert m.link + [] == m.link;
    var c := Collect(1, m.link);
    if c.err == None {
      CollectsFirst(m.link, pieces);
      PacedIff(c.rest, [[ENQ]]);
      HandshakeTimingIff(Next(m, e1).next, e2);
    }
  }

  /**
   * The converse for an answer, whatever its timing: the result is delivered exactly if each piece comes
   * in time for its collection; otherwise the machine stops or the exchange fails.
   */
  lemma AnswerTimingIff(m: Machine, e1: Env, e2: Env, a: Answer, due: seq<FsmResult>)
    requires m.state == SendP300Ack && Calm(e1) && Calm(e2)
    requires Carries(m, a, due) && Carrying(m.link, Flatten([[ACK]] + Pieces(a)))
    ensures Judged(Run(Next, m, [e1, e2]), due[0], Paced(m.link, [[ACK]] + Pieces(a)))
  {
    hide Collect, CollectFrom, Paced, Carrying, Next, Judged;
    OneDue(m, a, due);
    hide Carries;
    var pieces := [[ACK]] + Pieces(a);
    assert pieces[0] == [ACK] && pieces[1..] == Pieces(a);
    PacedIff(m.link, pieces);
    RunTwo(Next, m, e1, e2);
    AckTiming(m, e1);
    var o := Next(m, e1);
    var c := Collect(1, m.link);
    if c.err == None {
      CollectsFirst(m.link, pieces);
      CarriesSame(m, o.next, a, due);
      RecvTiming(o.next, e2, a, due);
      JudgedLater(o, Run(Next, m, [e1, e2]), Next(o.next, e2), due[0], Collects(m.link, pieces));
    } else {
      JudgedStopped(o, due[0]);
    }
  }

  /** An ACK that comes in time leads on; otherwise the machine stops. */
  lemma AckTiming(m: Machine, env: Env)
    requires m.state == SendP300Ack && Calm(env)
    ensures var o, c := Next(m, env), Collect(1, m.link);
            && (c.err == None && c.bytes == [ACK] ==>
                  o == Go(m.(state := RecvP300, prevstate := m.state, link := c.rest), [Got([ACK])]))
            && (c.err.Some? ==> o.stop.Some? && o.actions == [Got(c.bytes)])
  {
    hide Collect, CollectFrom;
    assert m.link + [] == m.link;
  }

  lemma JudgedStopped(o: Pass, due: FsmResult)
    requires o.stop.Some? && |o.actions| == 1 && o.actions[0].Got?
    ensures Judged(o, due, false)
  {
  }

  lemma JudgedLater(o: Pass, all: Pass, later: Pass, due: FsmResult, inTime: bool)
    requires Judged(later, due, inTime) && all.stop == later.stop && all.actions == o.actions + later.actions
    requires forall i :: 0 <= i < |o.actions| ==> !o.actions[i].Delivered?
    ensures Judged(all, due, inTime)
  {
    if x: FsmResult :| Delivered(x) in later.actions && x.id == due.id && (x.err == None <==> inTime) {
      assert Delivered(x) in all.actions;
    }
  }

  /** Both collections succeed, or the answer is not delivered. */
  lemma RecvTiming(m: Machine, env: Env, a: Answer, due: seq<FsmResult>)
    requires m.state == RecvP300 && Calm(env)
    requires Carries(m, a, due) && Carrying(m.link, Flatten(Pieces(a)))
    ensures Judged(Next(m, env), due[0], Collects(m.link, Pieces(a)))
  {
    hide Collect, CollectFrom, Next, Carrying, OnRecvP300, Judged, Carries;
    CarriesSame(m, m.(prevstate := m.state), a, due);
    NextRecv(m, env);
    PiecesCollected(m.link, a);
    if Collects(m.link, Pieces(a)) {
      AnswerDelivered(m.(prevstate := m.state), env, a, due);
      JudgedGood(Next(m, env), due[0]);
    } else {
      RecvFails(m.(prevstate := m.state), env, a, due);
    }
  }

  /** The outcome delivers the result exactly if the pieces came in time, and otherwise at most an error in its place. */
  ghost predicate Judged(o: Pass, due: FsmResult, inTime: bool) {
    && (Delivered(due) in o.actions <==> inTime)
    && (o.stop.Some? || exists x: FsmResult :: Delivered(x) in o.actions && x.id == due.id && (x.err == None <==> inTime))
  }

  lemma JudgedGood(o: Pass, due: FsmResult)
    requires |o.actions| == 3 && o.actions[2] == Delivered(due) && due.err == None
    ensures Judged(o, due, true)
  {
    assert Delivered(due) in o.actions;
  }

  lemma PiecesCollected(link: seq<LinkEvent>, a: Answer)
    requires a.Valid() && Carrying(link, Flatten(Pieces(a)))
    ensures Collects(link, Pieces(a)) ==> AnswerCollected(link, a)
    ensures var c := Collect(2, link);
            Collects(link, Pieces(a)) <==> c.err == None && Collect(a.Length() as int + 1, c.rest).err == None
    ensures Collect(2, link).err == None ==> Collect(2, link).bytes == [SO3, a.Length()]
  {
    hide Collect, CollectFrom, Carrying;
    var pieces := Pieces(a);
    assert pieces[1..] == [a.Tail()] && [a.Tail()][1..] == [];
    var c1 := Collect(2, link);
    var c2 := Collect(a.Length() as int + 1, c1.rest);
    assert Collects(c2.rest, []);
    assert Collects(c1.rest, [a.Tail()]) <==> c2.err == None;
    if c1.err == None {
      CollectsFirst(link, pieces);
      if c2.err == None {
        CollectsFirst(c1.rest, [a.Tail()]);
      }
    }
  }

  lemma RecvFails(m: Machine, env: Env, a: Answer, due: seq<FsmResult>)
    requires Carries(m, a, due)
    requires var c1 := Collect(2, m.link);
             c1.err.Some? || (c1.bytes == [SO3, a.Length()] && Collect(a.Length() as int + 1, c1.rest).err.Some?)
    ensures Judged(OnRecvP300(m, env), due[0], false)
  {
    hide Collect, CollectFrom, ParseAnswer;
    var o := OnRecvP300(m, env);
    if o.stop == None {
      var x := FsmResult(m.cmd.id, Some(if Collect(2, m.link).err.Some? then NoHeader else NoTelegram), []);
      assert o.actions[|o.actions| - 1] == Delivered(x);
    }
  }

  lemma NextRecv(m: Machine, env: Env)
    requires m.state == RecvP300 && Calm(env)
    ensures Next(m, env) == OnRecvP300(m.(prevstate := m.state), env)
  {
    hide OnRecvP300;
    assert m.link + [] == m.link;
  }
}
