/** The whole stack: `VWrite` and `VRead` over a run of the engine against the controller, down to the bytes on the line. */
module EndToEnd {
  import opened Bytes
  import opened Telegram
  import opened Events
  import opened Runs
  import opened Engine
  import opened EngineSafety
  import opened Refinement
  import opened Commands
  import opened Cache
  import opened BlockAccess
  import opened RoundTrip
  import opened Served
  import opened Progress
  import Codecs

  // ------------------------------------------------- the commands that are sent

  ghost predicate AllWhole(blocks: set<Block>, log: seq<Exchange>) {
    forall i :: 0 <= i < |log| ==> Whole(blocks, log[i].cmd)
  }

  lemma WholeFits(blocks: set<Block>, cmd: FsmCmd)
    requires Partition(blocks) && Whole(blocks, cmd)
    ensures Fits(cmd)
  {
    BlockFits(blocks, cmd);
  }

  lemma AllWholeFits(blocks: set<Block>, log: seq<Exchange>)
    requires Partition(blocks) && AllWhole(blocks, log)
    ensures AllFit(log)
  {
    hide Fits, Whole, Partition;
    forall i | 0 <= i < |log|
      ensures Fits(log[i].cmd)
    {
      WholeFits(blocks, log[i].cmd);
    }
  }

  lemma CommandIsWhole(blocks: set<Block>, mem: MemMap, duration: int, cmd: FsmCmd, turn: Turn)
    requires Partition(blocks) && Whole(blocks, cmd)
    ensures AllWhole(blocks, RunCmd(mem, duration, cmd, turn).log)
  {
    BlockFits(blocks, cmd);
    hide Whole, RunCmd;
    WholeIsOneExchange(mem, duration, cmd, turn);
  }

  lemma AllWholeConcat(blocks: set<Block>, x: seq<Exchange>, y: seq<Exchange>)
    requires AllWhole(blocks, x) && AllWhole(blocks, y)
    ensures AllWhole(blocks, x + y)
  {
    hide Whole;
  }

  lemma {:induction false} CommandsAreWhole(blocks: set<Block>, mem: MemMap, duration: int, cmds: seq<FsmCmd>, turns: seq<Turn>)
    requires Partition(blocks) && |turns| == |cmds| && forall c :: c in cmds ==> Whole(blocks, c)
    ensures AllWhole(blocks, RunCmds(mem, duration, cmds, turns).log)
    decreases |cmds|
  {
    hide Whole, Partition, RunCmd, AllWhole, CacheAfter;
    if cmds == [] {
      NothingWhole(blocks);
    } else {
      var n := |cmds| - 1;
      CommandsAreWhole(blocks, mem, duration, cmds[..n], turns[..n]);
      var b := RunCmds(mem, duration, cmds[..n], turns[..n]);
      assert cmds[n] in cmds;
      CommandIsWhole(blocks, CacheAfter(mem, b.log), duration, cmds[n], turns[n]);
      AllWholeConcat(blocks, b.log, RunCmd(CacheAfter(mem, b.log), duration, cmds[n], turns[n]).log);
    }
  }

  lemma NothingWhole(blocks: set<Block>)
    ensures AllWhole(blocks, [])
  {
  }

  lemma {:induction false} ReadIsWhole(blocks: set<Block>, mem: MemMap, duration: int, et: EventType, id: Uuid, turns: seq<Turn>, n: nat)
    requires Partition(blocks) && Laid(blocks, et) && n <= Parts(et) && n <= |turns|
    ensures AllWhole(blocks, ReadTo(mem, duration, et, id, turns, n).log)
    decreases n
  {
    hide Whole, Partition, RunCmd, AllWhole, CacheAfter, Laid, ReadTo, ReadBlock, FirstResult, Parts, BlockAddr, StepOf;
    if n == 0 {
      NothingRead(mem, duration, et, id, turns);
      NothingWhole(blocks);
    } else {
      ReadIsWhole(blocks, mem, duration, et, id, turns, n - 1);
      var r := ReadTo(mem, duration, et, id, turns, n - 1);
      if r.err == None {
        ReadNext(mem, duration, et, id, turns, n - 1);
        ReadBlockIsWhole(blocks, et, id, n - 1);
        CommandIsWhole(blocks, CacheAfter(mem, r.log), duration, ReadBlock(et, id, n - 1), turns[n - 1]);
        AllWholeConcat(blocks, r.log, RunCmd(CacheAfter(mem, r.log), duration, ReadBlock(et, id, n - 1), turns[n - 1]).log);
      } else {
        ReadStops(mem, duration, et, id, turns, n - 1, n);
      }
    }
  }

  /** Whatever the buffer, a write of a block is answered by one exchange at most, and fits. */
  lemma WriteBlockFits(blocks: set<Block>, mem: MemMap, duration: int, et: EventType, id: Uuid, b: seq<byte>, j: nat, turn: Turn)
    requires Partition(blocks) && Laid(blocks, et) && j < Parts(et)
    ensures AllFit(RunCmd(mem, duration, WriteBlock(et, id, b, j), turn).log)
  {
    BlockInside(et, j);
    assert BlockAt(et, j) in blocks;
    hide RunCmd, StepOf, BlockStart, Parts, Counter, BlockAddr;
    var cmd := WriteBlock(et, id, b, j);
    assert |cmd.args| <= cmd.resultLen as int;
    WholeIsOneExchange(mem, duration, cmd, turn);
  }

  lemma AllFitConcat(x: seq<Exchange>, y: seq<Exchange>)
    ensures AllFit(x + y) <==> AllFit(x) && AllFit(y)
  {
    hide Fits;
    assert forall i :: 0 <= i < |x| ==> (x + y)[i] == x[i];
    assert forall i :: 0 <= i < |y| ==> (x + y)[|x| + i] == y[i];
  }

  lemma {:induction false} WriteFits(
    blocks: set<Block>, mem: MemMap, duration: int, et: EventType, id: Uuid, b: seq<byte>, turns: seq<Turn>, n: nat)
    requires Partition(blocks) && Laid(blocks, et) && n <= Parts(et) && n <= |turns|
    ensures AllFit(WriteTo(mem, duration, et, id, b, turns, n))
    decreases n
  {
    hide Partition, RunCmd, AllFit, CacheAfter, Laid, WriteTo, WriteBlock, Parts;
    if n == 0 {
      NothingWritten(mem, duration, et, id, b, turns);
      NothingFits();
    } else {
      WriteFits(blocks, mem, duration, et, id, b, turns, n - 1);
      var log := WriteTo(mem, duration, et, id, b, turns, n - 1);
      WriteNext(mem, duration, et, id, b, turns, n - 1);
      WriteBlockFits(blocks, CacheAfter(mem, log), duration, et, id, b, n - 1, turns[n - 1]);
      AllFitConcat(log, RunCmd(CacheAfter(mem, log), duration, WriteBlock(et, id, b, n - 1), turns[n - 1]).log);
    }
  }

  lemma NothingFits()
    ensures AllFit([])
  {
  }

  lemma WritingFits(blocks: set<Block>, mem: MemMap, duration: int, et: EventType, id: Uuid, v: Value,
                    fetches: seq<Turn>, stores: seq<Turn>, spare: seq<byte>)
    requires Partition(blocks) && Laid(blocks, et) && |fetches| == |stores| == Parts(et)
    ensures AllFit(Writing(mem, duration, et, id, v, fetches, stores, spare).log)
  {
    hide Partition, AllFit, CacheAfter, Laid, WriteTo, ReadTo, Parts, Codecs.Encode, Counter, AllWhole;
    LaidIsSane(blocks, et);
    var r := ReadTo(mem, duration, et, id, fetches, |fetches|);
    ReadIsWhole(blocks, mem, duration, et, id, fetches, |fetches|);
    AllWholeFits(blocks, r.log);
    NothingFits();
    if r.err == None && Codecs.Encode(et, r.body, v).Done? {
      var room := Codecs.Encode(et, r.body, v).value + spare;
      WriteFits(blocks, CacheAfter(mem, r.log), duration, et, id, room, stores, |stores|);
      AllFitConcat(r.log, WriteTo(CacheAfter(mem, r.log), duration, et, id, room, stores, |stores|));
    }
  }

  lemma LaidIsSane(blocks: set<Block>, et: EventType)
    requires Laid(blocks, et)
    ensures Codecs.Sane(et)
  {
  }

  // ------------------------------------------------------------------ theorems

  /** The world of the engine at its start. */
  function Beginning(m: Memory, now: int): World {
    World(Start(true, now), m)
  }

  /**
   * Commands over whole blocks, carried by a run of the engine from its start: the cache agrees with the
   * controller's memory as it is then.
   */
  lemma CommandsOverTheWire(blocks: set<Block>, m: Memory, now: int, moves: seq<Move>,
                            duration: int, cmds: seq<FsmCmd>, turns: seq<Turn>)
    requires Partition(blocks) && |turns| == |cmds| && forall c :: c in cmds ==> Whole(blocks, c)
    requires Carried(RunCmds(map[], duration, cmds, turns).log, Run(Tick, Beginning(m, now), moves).actions)
    ensures var r := Run(Tick, Beginning(m, now), moves);
            r.stop == None && Quiet(r.next) && Coherent(blocks, CacheAfter(map[], RunCmds(map[], duration, cmds, turns).log), r.next.mem)
  {
    hide Partition, Whole, Coherent, RunCmds, Carried, Tick, AllFit, AllWhole, Faithful, MemoryAfter, CacheAfter, Quiet;
    var log := RunCmds(map[], duration, cmds, turns).log;
    StartFits(m, now);
    CommandsAreWhole(blocks, map[], duration, cmds, turns);
    AllWholeFits(blocks, log);
    EngineIsFaithful(Beginning(m, now), moves, log);
    EmptyIsCoherent(blocks, m);
    CommandsKeepCoherence(blocks, m, map[], duration, cmds, turns);
  }

  /**
   * Value in, bytes over the line, value out. In whatever quiet state of engine and controller, and with
   * whatever coherent cache, `VWrite` begins: if the engine carries its exchanges and those of the next
   * `VRead`, every write is answered and the read reports no error, then the controller's memory is the
   * old one with the encoded value in place, only the event's own bits have changed if the encoder stays
   * inside, and the read goes past the cache, block by block, and yields the value.
   */
  lemma WriteThenReadOverTheWire(blocks: set<Block>, world: World, moves: seq<Move>, mem: MemMap, duration: int,
                                 et: EventType, id: Uuid, v: Value, fetches: seq<Turn>, stores: seq<Turn>, spare: seq<byte>,
                                 id': Uuid, turns: seq<Turn>)
    requires Partition(blocks) && Quiet(world) && Coherent(blocks, mem, world.mem) && Laid(blocks, et)
    requires |fetches| == |stores| == |turns| == Parts(et)
    requires var w := Writing(mem, duration, et, id, v, fetches, stores, spare);
             var r := ReadTo(CacheAfter(mem, w.log), duration, et, id', turns, Parts(et));
             && Carried(w.log + r.log, Run(Tick, world, moves).actions)
             && w.err == None && |w.log| == |ReadTo(mem, duration, et, id, fetches, Parts(et)).log| + Parts(et)
             && r.err == None
    ensures var w := Writing(mem, duration, et, id, v, fetches, stores, spare);
            var r := ReadTo(CacheAfter(mem, w.log), duration, et, id', turns, Parts(et));
            var c := Codecs.Encode(et, BufferOf(world.mem, et), v);
            var world' := Run(Tick, world, moves).next;
            && Quiet(world') && c.Done? && world'.mem == Store(world.mem, et.address, c.value)
            && (Codecs.StaysInside(et, v, et.blockLength) ==> OnlyOwnBits(et, world.mem, world'.mem))
            && |r.log| == Parts(et)
            && (Codecs.Representable(et, v) && et.blockLength >= et.bytePosition as int + et.byteLength ==>
                  ReadOutcome(et, r) == (Some(Codecs.ReadBack(et, v)), None))
  {
    hide Partition, Coherent, Carried, Tick, AllFit, Faithful, MemoryAfter, CacheAfter, Quiet, Writing, ReadTo, Laid, Parts,
      Codecs.Encode, Codecs.StaysInside, Codecs.Representable, Codecs.ReadBack, ReadOutcome, OnlyOwnBits, Store, Slice;
    LaidIsSane(blocks, et);
    var w := Writing(mem, duration, et, id, v, fetches, stores, spare);
    var r := ReadTo(CacheAfter(mem, w.log), duration, et, id', turns, Parts(et));
    AllFitTogether(blocks, mem, duration, et, id, v, fetches, stores, spare, id', turns);
    EngineIsFaithful(world, moves, w.log + r.log);
    FaithfulSplit(world.mem, w.log, r.log);
    MemoryAfterConcat(world.mem, w.log, r.log);
    SuccessGoesThrough(blocks, mem, duration, et, id, v, fetches, stores, spare, r.log);
    WriteEffect(blocks, world.mem, mem, duration, et, id, v, fetches, stores, spare);
    WriteThenRead(blocks, world.mem, mem, duration, et, id, v, fetches, stores, spare, id', turns);
    ReadToIsSlice(blocks, MemoryAfter(world.mem, w.log), CacheAfter(mem, w.log), duration, et, id', turns, Parts(et));
  }

  lemma AllFitTogether(blocks: set<Block>, mem: MemMap, duration: int, et: EventType, id: Uuid, v: Value,
                       fetches: seq<Turn>, stores: seq<Turn>, spare: seq<byte>, id': Uuid, turns: seq<Turn>)
    requires Partition(blocks) && Laid(blocks, et) && Codecs.Sane(et) && |fetches| == |stores| == |turns| == Parts(et)
    ensures var w := Writing(mem, duration, et, id, v, fetches, stores, spare);
            var r := ReadTo(CacheAfter(mem, w.log), duration, et, id', turns, Parts(et));
            AllFit(w.log + r.log)
  {
    hide Partition, Laid, AllFit, AllWhole, Writing, ReadTo, CacheAfter, Parts;
    var w := Writing(mem, duration, et, id, v, fetches, stores, spare);
    var r := ReadTo(CacheAfter(mem, w.log), duration, et, id', turns, Parts(et));
    WritingFits(blocks, mem, duration, et, id, v, fetches, stores, spare);
    ReadIsWhole(blocks, CacheAfter(mem, w.log), duration, et, id', turns, Parts(et));
    AllWholeFits(blocks, r.log);
    AllFitConcat(w.log, r.log);
  }

  lemma SuccessGoesThrough(blocks: set<Block>, mem: MemMap, duration: int, et: EventType, id: Uuid, v: Value,
                           fetches: seq<Turn>, stores: seq<Turn>, spare: seq<byte>, rest: seq<Exchange>)
    requires Laid(blocks, et) && Codecs.Sane(et) && |fetches| == |stores| == Parts(et)
    requires var w := Writing(mem, duration, et, id, v, fetches, stores, spare);
             && w.err == None && |w.log| == |ReadTo(mem, duration, et, id, fetches, Parts(et)).log| + Parts(et)
             && AllSucceed(w.log + rest)
    ensures WellBlocked(et) && WentThrough(mem, duration, et, id, v, fetches, stores, spare)
  {
    hide Writing, ReadTo, Parts, WellBlocked;
    SucceedSplit(Writing(mem, duration, et, id, v, fetches, stores, spare).log, rest);
  }

  // -------------------------------------------------------- every log is possible

  function Cmds(log: seq<Exchange>): seq<FsmCmd> {
    seq(|log|, i requires 0 <= i < |log| => log[i].cmd)
  }

  /** Results carry the identifier of their command. */
  predicate Identified(log: seq<Exchange>) {
    forall i :: 0 <= i < |log| ==> log[i].result.id == log[i].cmd.id
  }

  /** The results of a faithful, successful log are the atomic ones. */
  lemma {:induction false} FaithfulResults(m: Memory, log: seq<Exchange>)
    requires Faithful(m, log) && AllSucceed(log) && Identified(log)
    ensures MemAfter(m, Cmds(log)) == MemoryAfter(m, log)
    ensures |Results(m, Cmds(log))| == |log| && forall i :: 0 <= i < |log| ==> Results(m, Cmds(log))[i] == log[i].result
  {
    if log != [] {
      hide Serve, RequestOf;
      var n := |log| - 1;
      assert Cmds(log)[..n] == Cmds(log[..n]);
      FaithfulPrefix(m, log, n);
      FaithfulResults(m, log[..n]);
      assert FaithfulAt(m, log, n);
    }
  }

  lemma FaithfulPrefix(m: Memory, log: seq<Exchange>, n: nat)
    requires Faithful(m, log) && n <= |log|
    ensures Faithful(m, log[..n])
  {
    hide Faithful;
    FaithfulSplit(m, log[..n], log[n..]);
    assert log[..n] + log[n..] == log;
  }

  /** Every faithful and successful log of fitting commands is carried by some run of the engine from its start. */
  lemma FaithfulIsCarried(m: Memory, now: int, log: seq<Exchange>) returns (moves: seq<Move>)
    requires Faithful(m, log) && AllSucceed(log) && Identified(log) && AllFit(log)
    ensures Carried(log, Run(Tick, Beginning(m, now), moves).actions)
  {
    hide Tick, Fits, Simulates, Results, MemAfter, Acceptances, Deliveries;
    FaithfulResults(m, log);
    moves := EveryListIsServed(m, now, Cmds(log));
  }
}
