/** Writing an event and reading it back, through chunks, cache and codec. */
module RoundTrip {
  import opened Bytes
  import opened Bits
  import opened Telegram
  import opened Events
  import opened Refinement
  import opened Commands
  import opened Cache
  import opened BlockAccess
  import Codec
  import Codecs

  function BlockAt(et: EventType, j: nat): Block {
    Block(BlockAddr(et, j), StepOf(et))
  }

  /** The event is read and written with P300 or KW commands, in blocks of the partition. */
  ghost predicate Laid(blocks: set<Block>, et: EventType) {
    && WellBlocked(et) && Codecs.Sane(et)
    && (et.fcRead == P300_READ || et.fcRead == KW_READ)
    && (et.fcWrite == P300_WRITE || et.fcWrite == KW_WRITE)
    && forall j :: 0 <= j < Parts(et) ==> BlockAt(et, j) in blocks
  }

  lemma BlockAddrRoundTrip(et: EventType, j: nat)
    ensures Bytes2Addr(Addr2Bytes(BlockAddr(et, j))) == BlockAddr(et, j)
  {
    AddressRoundTrip(BlockAddr(et, j), Addr2Bytes(BlockAddr(et, j)));
  }

  lemma ReadBlockIsWhole(blocks: set<Block>, et: EventType, id: Uuid, j: nat)
    requires Laid(blocks, et) && j < Parts(et)
    ensures var cmd := ReadBlock(et, id, j);
            Whole(blocks, cmd) && IsRead(cmd) && AddrOf(cmd) == BlockAddr(et, j) && cmd.resultLen == StepOf(et)
  {
    BlockInside(et, j);
    hide WellBlocked, Codecs.Sane, StepOf, BlockStart, Parts, Addr2Bytes, Bytes2Addr, Counter;
    BlockAddrRoundTrip(et, j);
    assert BlockAt(et, j) in blocks;
    assert BlockOf(ReadBlock(et, id, j)) == BlockAt(et, j);
  }

  lemma WriteBlockIsWhole(blocks: set<Block>, et: EventType, id: Uuid, b: seq<byte>, j: nat)
    requires Laid(blocks, et) && j < Parts(et) && |b| >= et.blockLength
    ensures var cmd := WriteBlock(et, id, b, j);
            && Whole(blocks, cmd) && IsWrite(cmd) && AddrOf(cmd) == BlockAddr(et, j) && cmd.resultLen == StepOf(et)
            && BlockStart(et, j) <= BlockStart(et, j + 1) == BlockStart(et, j) + StepOf(et) <= |b|
            && cmd.args == b[BlockStart(et, j)..BlockStart(et, j + 1)]
  {
    BlockInside(et, j);
    hide WellBlocked, Codecs.Sane, StepOf, BlockStart, Parts, Addr2Bytes, Bytes2Addr, Counter;
    BlockAddrRoundTrip(et, j);
    assert BlockAt(et, j) in blocks;
    assert BlockOf(WriteBlock(et, id, b, j)) == BlockAt(et, j);
  }

  lemma BlockInside(et: EventType, j: nat)
    requires WellBlocked(et) && j < Parts(et)
    ensures BlockStart(et, j) + StepOf(et) == BlockStart(et, j + 1) <= et.blockLength
    ensures Counter(et, j) == BlockStart(et, j) && Counter(et, j + 1) == BlockStart(et, j + 1)
  {
    BlockStartGrows(et, j, Parts(et));
    BlocksExit(et);
  }

  /** Different blocks of an event start at different addresses. */
  lemma BlocksDiffer(et: EventType, i: nat, j: nat)
    requires WellBlocked(et) && i < j < Parts(et)
    ensures BlockAddr(et, i) != BlockAddr(et, j)
  {
    BlockStartGrows(et, i, j);
    BlockStartGrows(et, j, Parts(et));
    OffsetPlus(et.address, BlockStart(et, i));
    OffsetPlus(et.address, BlockStart(et, j));
  }

  // ------------------------------------------------------------------- reading

  /** The reading of the first n blocks of the event from the memory m. */
  ghost predicate ReadFits(blocks: set<Block>, m: Memory, mem: MemMap, et: EventType, n: nat, r: Reading) {
    && Coherent(blocks, CacheAfter(mem, r.log), m) && MemoryAfter(m, r.log) == m
    && (r.err == None ==> r.body == Slice(m, et.address, BlockStart(et, n)))
  }

  /** Block by block the event is read from the controller's memory, or from a cache that agrees with it. */
  lemma {:induction false} ReadToIsSlice(
    blocks: set<Block>, m: Memory, mem: MemMap, duration: int, et: EventType, id: Uuid, turns: seq<Turn>, n: nat)
    requires Partition(blocks) && Coherent(blocks, mem, m) && Laid(blocks, et) && n <= Parts(et) && n <= |turns|
    requires Faithful(m, ReadTo(mem, duration, et, id, turns, n).log)
    ensures ReadFits(blocks, m, mem, et, n, ReadTo(mem, duration, et, id, turns, n))
    decreases n
  {
    hide Coherent, Faithful, RunCmd, Partition, Laid, Slice, FirstResult;
    if n == 0 {
      NoLog(mem, m);
      CounterSteps(et, 0);
      assert Slice(m, et.address, 0) == [];
    } else {
      hide ReadFits;
      var r := ReadTo(mem, duration, et, id, turns, n - 1);
      if r.err.Some? {
        ReadToIsSlice(blocks, m, mem, duration, et, id, turns, n - 1);
        FailedReadFits(blocks, m, mem, et, n - 1, n, r);
      } else {
        ReadNext(mem, duration, et, id, turns, n - 1);
        FaithfulSplit(m, r.log, RunCmd(CacheAfter(mem, r.log), duration, ReadBlock(et, id, n - 1), turns[n - 1]).log);
        ReadToIsSlice(blocks, m, mem, duration, et, id, turns, n - 1);
        ReadFitsStep(blocks, m, mem, duration, et, id, turns[n - 1], n - 1, r);
      }
    }
  }

  lemma FailedReadFits(blocks: set<Block>, m: Memory, mem: MemMap, et: EventType, i: nat, n: nat, r: Reading)
    requires ReadFits(blocks, m, mem, et, i, r) && r.err.Some?
    ensures ReadFits(blocks, m, mem, et, n, r)
  {
    hide Coherent, Slice, CacheAfter, MemoryAfter;
  }

  lemma ReadFitsStep(blocks: set<Block>, m: Memory, mem: MemMap, duration: int, et: EventType, id: Uuid, turn: Turn, j: nat, r: Reading)
    requires Partition(blocks) && Laid(blocks, et) && j < Parts(et)
    requires ReadFits(blocks, m, mem, et, j, r) && r.err == None
    requires Faithful(m, RunCmd(CacheAfter(mem, r.log), duration, ReadBlock(et, id, j), turn).log)
    ensures var b := RunCmd(CacheAfter(mem, r.log), duration, ReadBlock(et, id, j), turn);
            (b.loss == None ==> |b.results| == 1) &&
            ReadFits(blocks, m, mem, et, j + 1, Reading(r.log + b.log, r.body + FirstResult(b).body, FirstResult(b).err))
  {
    hide Coherent, Slice, CacheAfter, MemoryAfter, Partition, Laid, RunCmd, Faithful, FirstResult, BlockStart;
    var mem' := CacheAfter(mem, r.log);
    var b := RunCmd(mem', duration, ReadBlock(et, id, j), turn);
    OneCommand(mem', duration, ReadBlock(et, id, j), turn);
    ReadBlockStep(blocks, m, mem', duration, et, id, turn, j);
    CacheAfterConcat(mem, r.log, b.log);
    MemoryAfterConcat(m, r.log, b.log);
  }

  lemma ReadBlockStep(blocks: set<Block>, m: Memory, mem: MemMap, duration: int, et: EventType, id: Uuid, turn: Turn, j: nat)
    requires Partition(blocks) && Coherent(blocks, mem, m) && Laid(blocks, et) && j < Parts(et)
    requires Faithful(m, RunCmd(mem, duration, ReadBlock(et, id, j), turn).log)
    ensures var b := RunCmd(mem, duration, ReadBlock(et, id, j), turn);
            && Coherent(blocks, CacheAfter(mem, b.log), m) && MemoryAfter(m, b.log) == m
            && (FirstResult(b).err == None ==>
                  Slice(m, et.address, BlockStart(et, j)) + FirstResult(b).body == Slice(m, et.address, BlockStart(et, j + 1)))
  {
    hide Coherent, Faithful, RunCmd, Partition, CmdDone, WellBlocked, Whole, StepOf, BlockStart, Plus, Slice, FirstResult,
      CacheAfter, MemoryAfter, IsRead;
    var cmd := ReadBlock(et, id, j);
    ReadBlockIsWhole(blocks, et, id, j);
    CommandRefinesMemory(blocks, mem, m, duration, cmd, turn);
    ReadDone(blocks, mem, m, cmd, RunCmd(mem, duration, cmd, turn));
    StartNext(et, j);
    SliceSplit(m, et.address, BlockStart(et, j), StepOf(et));
  }

  lemma StartNext(et: EventType, j: nat)
    ensures BlockStart(et, j + 1) == BlockStart(et, j) + StepOf(et)
  {
  }

  lemma NoLog(mem: MemMap, m: Memory)
    ensures CacheAfter(mem, []) == mem && MemoryAfter(m, []) == m
  {
  }

  lemma ReadDone(blocks: set<Block>, mem: MemMap, m: Memory, cmd: FsmCmd, r: Batch)
    requires CmdDone(blocks, mem, m, cmd, r) && IsRead(cmd)
    ensures Coherent(blocks, CacheAfter(mem, r.log), m) && MemoryAfter(m, r.log) == m
    ensures FirstResult(r).err == None ==> FirstResult(r).body == Slice(m, AddrOf(cmd), cmd.resultLen)
  {
    hide Coherent, CacheAfter, MemoryAfter;
  }

  /**
   * Whatever `VRead` returns over a coherent cache and faithful replies is the decoded form of the event's
   * bytes in the controller's memory; if a block fails, nothing is returned.
   */
  lemma ReadIsDecoded(blocks: set<Block>, m: Memory, mem: MemMap, duration: int, et: EventType, id: Uuid, turns: seq<Turn>)
    requires Partition(blocks) && Coherent(blocks, mem, m) && Laid(blocks, et) && |turns| == Parts(et)
    requires Faithful(m, ReadTo(mem, duration, et, id, turns, Parts(et)).log)
    ensures var r := ReadTo(mem, duration, et, id, turns, Parts(et));
            var o := ReadOutcome(et, r);
            && (o.0.Some? ==> o.1 == None && Codecs.Decode(et, BufferOf(m, et)) == Done(o.0.value))
            && (r.err.Some? ==> o == (None, Some(Failed(r.err.value))))
            && (o.0.Some? <==> r.err == None && Codecs.Decode(et, BufferOf(m, et)).Done?)
  {
    hide Coherent, Faithful, Partition, ReadTo, CacheAfter, MemoryAfter, StepOf, BlockStart, Parts, Codecs.Decode, Slice;
    ReadToIsSlice(blocks, m, mem, duration, et, id, turns, Parts(et));
  }

  // ------------------------------------------------------------------- writing

  /** The first n blocks of the event are not served from the cache. */
  ghost predicate Stale(mem: MemMap, et: EventType, from: nat, n: nat) {
    forall j :: from <= j < n ==> !ValidAt(mem, BlockAddr(et, j))
  }

  /** An exchange over one block leaves the first entry of another block alone. */
  lemma OtherStaysStale(blocks: set<Block>, mem: MemMap, m: Memory, x: Exchange, c: Block)
    requires Partition(blocks) && Whole(blocks, x.cmd) && Faithful(m, [x])
    requires c in blocks && c != BlockOf(x.cmd) && !ValidAt(mem, c.addr)
    ensures !ValidAt(Remember(mem, x), c.addr)
  {
    hide Remember, MemoryAfter, Stored, Faithful;
    WholeExchange(blocks, m, x);
    var b := BlockOf(x.cmd);
    PlusZero(c.addr);
    PlusOffset(b.addr, c.addr);
    assert Offset(b.addr, c.addr) >= b.len by {
      assert Apart(b.addr, b.len, c.addr, c.len);
      assert Plus(c.addr, 0) == c.addr;
    }
    RememberAt(mem, x, c.addr);
  }

  lemma CommandKeepsStale(blocks: set<Block>, mem: MemMap, m: Memory, duration: int, cmd: FsmCmd, turn: Turn, c: Block)
    requires Partition(blocks) && Whole(blocks, cmd) && Faithful(m, RunCmd(mem, duration, cmd, turn).log)
    requires c in blocks && c != BlockOf(cmd) && !ValidAt(mem, c.addr)
    ensures !ValidAt(CacheAfter(mem, RunCmd(mem, duration, cmd, turn).log), c.addr)
  {
    hide Remember, Faithful, Hit;
    var log := RunCmd(mem, duration, cmd, turn).log;
    WholeIsOneExchange(mem, duration, cmd, turn);
    hide RunCmd;
    if |log| == 1 {
      assert log == [log[0]] && log[..0] == [];
      NoLog(mem, m);
      OtherStaysStale(blocks, mem, m, log[0], c);
    }
  }

  /** A write adds at most one exchange, and with a success it stores its arguments and makes its block stale. */
  lemma WriteOne(blocks: set<Block>, mem: MemMap, m: Memory, duration: int, cmd: FsmCmd, turn: Turn)
    requires Partition(blocks) && Coherent(blocks, mem, m) && Whole(blocks, cmd) && IsWrite(cmd)
    requires Faithful(m, RunCmd(mem, duration, cmd, turn).log)
    ensures var log := RunCmd(mem, duration, cmd, turn).log;
            && |log| <= 1 && Coherent(blocks, CacheAfter(mem, log), MemoryAfter(m, log))
            && (|log| == 1 && AllSucceed(log) ==>
                  MemoryAfter(m, log) == Store(m, AddrOf(cmd), cmd.args) && !ValidAt(CacheAfter(mem, log), AddrOf(cmd)))
  {
    hide Coherent, Faithful, Hit, CacheAfter, MemoryAfter;
    CommandRefinesMemory(blocks, mem, m, duration, cmd, turn);
    WholeIsOneExchange(mem, duration, cmd, turn);
    hide RunCmd;
  }

  /** The log of writing the first n blocks of the event with the contents b. */
  ghost predicate WroteTo(blocks: set<Block>, m: Memory, mem: MemMap, et: EventType, b: seq<byte>, n: nat, log: seq<Exchange>) {
    && |log| <= n && BlockStart(et, n) <= |b|
    && Coherent(blocks, CacheAfter(mem, log), MemoryAfter(m, log))
    && (|log| == n && AllSucceed(log) ==>
          MemoryAfter(m, log) == Store(m, et.address, b[..BlockStart(et, n)]) && Stale(CacheAfter(mem, log), et, 0, n))
  }

  lemma {:induction false} WriteToStores(
    blocks: set<Block>, m: Memory, mem: MemMap, duration: int, et: EventType, id: Uuid, b: seq<byte>, turns: seq<Turn>, n: nat)
    requires Partition(blocks) && Coherent(blocks, mem, m) && Laid(blocks, et) && |b| >= et.blockLength
    requires n <= Parts(et) && n <= |turns|
    requires Faithful(m, WriteTo(mem, duration, et, id, b, turns, n))
    ensures WroteTo(blocks, m, mem, et, b, n, WriteTo(mem, duration, et, id, b, turns, n))
    decreases n
  {
    hide Coherent, Faithful, RunCmd, Partition, WellBlocked, WroteTo, WriteTo, CacheAfter, MemoryAfter, WriteBlock, Laid, Parts;
    if n == 0 {
      WroteNothing(blocks, m, mem, duration, et, id, b, turns);
    } else {
      WriteNext(mem, duration, et, id, b, turns, n - 1);
      var log := WriteTo(mem, duration, et, id, b, turns, n - 1);
      var x := RunCmd(CacheAfter(mem, log), duration, WriteBlock(et, id, b, n - 1), turns[n - 1]).log;
      FaithfulSplit(m, log, x);
      WriteToStores(blocks, m, mem, duration, et, id, b, turns, n - 1);
      WroteStep(blocks, m, mem, duration, et, id, b, turns[n - 1], n - 1, log);
    }
  }

  lemma WroteNothing(
    blocks: set<Block>, m: Memory, mem: MemMap, duration: int, et: EventType, id: Uuid, b: seq<byte>, turns: seq<Turn>)
    requires Coherent(blocks, mem, m)
    ensures WroteTo(blocks, m, mem, et, b, 0, WriteTo(mem, duration, et, id, b, turns, 0))
  {
    hide Coherent;
    NoLog(mem, m);
    CounterSteps(et, 0);
    StoreNothing(m, et.address);
    assert b[..0] == [];
  }

  lemma WroteStep(blocks: set<Block>, m: Memory, mem: MemMap, duration: int, et: EventType, id: Uuid, b: seq<byte>,
                  turn: Turn, j: nat, log: seq<Exchange>)
    requires Partition(blocks) && Laid(blocks, et) && |b| >= et.blockLength && j < Parts(et)
    requires WroteTo(blocks, m, mem, et, b, j, log)
    requires Faithful(MemoryAfter(m, log), RunCmd(CacheAfter(mem, log), duration, WriteBlock(et, id, b, j), turn).log)
    ensures WroteTo(blocks, m, mem, et, b, j + 1, log + RunCmd(CacheAfter(mem, log), duration, WriteBlock(et, id, b, j), turn).log)
  {
    hide Coherent, Faithful, RunCmd, Partition, WellBlocked, Whole, StepOf, BlockStart, Plus, Store, AllSucceed, IsWrite,
      CacheAfter, MemoryAfter, Stale;
    BlockInside(et, j);
    var cmd := WriteBlock(et, id, b, j);
    var mem', m' := CacheAfter(mem, log), MemoryAfter(m, log);
    var x := RunCmd(mem', duration, cmd, turn).log;
    WriteBlockIsWhole(blocks, et, id, b, j);
    WriteOne(blocks, mem', m', duration, cmd, turn);
    CacheAfterConcat(mem, log, x);
    MemoryAfterConcat(m, log, x);
    SucceedSplit(log, x);
    if |log + x| == j + 1 && AllSucceed(log + x) {
      WriteBlockStores(blocks, mem', m', duration, et, id, b, turn, j, m);
    }
  }

  lemma StoreNothing(m: Memory, a: Addr)
    ensures Store(m, a, []) == m
  {
  }

  /** Writing block j after the blocks before it: the stored range grows, and so does the stale part. */
  lemma WriteBlockStores(blocks: set<Block>, mem: MemMap, m: Memory, duration: int, et: EventType, id: Uuid, b: seq<byte>,
                         turn: Turn, j: nat, m0: Memory)
    requires Partition(blocks) && Coherent(blocks, mem, m) && Laid(blocks, et) && |b| >= et.blockLength && j < Parts(et)
    requires Stale(mem, et, 0, j) && BlockStart(et, j) <= |b| && m == Store(m0, et.address, b[..BlockStart(et, j)])
    requires var x := RunCmd(mem, duration, WriteBlock(et, id, b, j), turn).log;
             Faithful(m, x) && |x| == 1 && AllSucceed(x)
    ensures var x := RunCmd(mem, duration, WriteBlock(et, id, b, j), turn).log;
            && BlockStart(et, j + 1) <= |b|
            && MemoryAfter(m, x) == Store(m0, et.address, b[..BlockStart(et, j + 1)])
            && Stale(CacheAfter(mem, x), et, 0, j + 1)
  {
    BlockIsByte(blocks, et, j);
    hide *;
    WriteBlockIsStored(blocks, mem, m, duration, et, id, b, turn, j);
    var i, n := BlockStart(et, j), BlockStart(et, j + 1);
    assert b[..n] == b[..i] + b[i..n];
    StoreStore(m0, et.address, b[..i], b[i..n]);
    StaleGrows(blocks, mem, m, duration, et, WriteBlock(et, id, b, j), turn, j);
  }

  lemma BlockIsByte(blocks: set<Block>, et: EventType, j: nat)
    requires Laid(blocks, et) && j < Parts(et)
    ensures BlockStart(et, j + 1) <= 0xff
  {
    BlockInside(et, j);
  }

  lemma WriteBlockIsStored(blocks: set<Block>, mem: MemMap, m: Memory, duration: int, et: EventType, id: Uuid, b: seq<byte>,
                           turn: Turn, j: nat)
    requires Partition(blocks) && Coherent(blocks, mem, m) && Laid(blocks, et) && |b| >= et.blockLength && j < Parts(et)
    requires var x := RunCmd(mem, duration, WriteBlock(et, id, b, j), turn).log;
             Faithful(m, x) && |x| == 1 && AllSucceed(x)
    ensures var cmd := WriteBlock(et, id, b, j);
            var x := RunCmd(mem, duration, cmd, turn).log;
            && BlockStart(et, j) <= BlockStart(et, j + 1) <= |b|
            && MemoryAfter(m, x) == Store(m, Plus(et.address, BlockStart(et, j)), b[BlockStart(et, j)..BlockStart(et, j + 1)])
            && Whole(blocks, cmd) && AddrOf(cmd) == BlockAddr(et, j) && !ValidAt(CacheAfter(mem, x), BlockAddr(et, j))
  {
    hide Coherent, Faithful, RunCmd, Partition, WellBlocked, Whole, StepOf, BlockStart, Store, AllSucceed, IsWrite, CacheAfter, MemoryAfter,
      WriteBlock, Laid, Codecs.Sane;
    WriteBlockIsWhole(blocks, et, id, b, j);
    WriteOne(blocks, mem, m, duration, WriteBlock(et, id, b, j), turn);
  }

  lemma StaleGrows(blocks: set<Block>, mem: MemMap, m: Memory, duration: int, et: EventType, cmd: FsmCmd, turn: Turn, j: nat)
    requires Partition(blocks) && Laid(blocks, et) && j < Parts(et) && Stale(mem, et, 0, j)
    requires Whole(blocks, cmd) && AddrOf(cmd) == BlockAddr(et, j) && Faithful(m, RunCmd(mem, duration, cmd, turn).log)
    requires !ValidAt(CacheAfter(mem, RunCmd(mem, duration, cmd, turn).log), BlockAddr(et, j))
    ensures Stale(CacheAfter(mem, RunCmd(mem, duration, cmd, turn).log), et, 0, j + 1)
  {
    hide Faithful, RunCmd, Partition, Whole, CacheAfter, BlockAddr, Laid, Parts;
    forall k | 0 <= k < j + 1
      ensures !ValidAt(CacheAfter(mem, RunCmd(mem, duration, cmd, turn).log), BlockAddr(et, k))
    {
      if k < j {
        StaleBlockStays(blocks, mem, m, duration, et, cmd, turn, k, j);
      }
    }
  }

  lemma SucceedSplit(x: seq<Exchange>, y: seq<Exchange>)
    ensures AllSucceed(x + y) <==> AllSucceed(x) && AllSucceed(y)
  {
    if AllSucceed(x + y) {
      forall i | 0 <= i < |x|
        ensures x[i].result.err == None
      {
        assert (x + y)[i] == x[i];
      }
      forall i | 0 <= i < |y|
        ensures y[i].result.err == None
      {
        assert (x + y)[|x| + i] == y[i];
      }
    }
  }

  /** A command over block i of the event does not revive block j. */
  lemma StaleBlockStays(blocks: set<Block>, mem: MemMap, m: Memory, duration: int, et: EventType, cmd: FsmCmd, turn: Turn, j: nat, i: nat)
    requires Partition(blocks) && Laid(blocks, et) && i != j && i < Parts(et) && j < Parts(et)
    requires Whole(blocks, cmd) && AddrOf(cmd) == BlockAddr(et, i) && Faithful(m, RunCmd(mem, duration, cmd, turn).log)
    requires !ValidAt(mem, BlockAddr(et, j))
    ensures !ValidAt(CacheAfter(mem, RunCmd(mem, duration, cmd, turn).log), BlockAddr(et, j))
  {
    hide Partition, Faithful, RunCmd, Whole;
    if i < j {
      BlocksDiffer(et, i, j);
    } else {
      BlocksDiffer(et, j, i);
    }
    assert BlockAt(et, j) in blocks;
    CommandKeepsStale(blocks, mem, m, duration, cmd, turn, BlockAt(et, j));
  }

  // ------------------------------------------------------------- past the cache

  /** An event whose blocks are all stale is read from the controller: one exchange per block. */
  lemma {:induction false} StaleIsReadAgain(
    blocks: set<Block>, m: Memory, mem: MemMap, duration: int, et: EventType, id: Uuid, turns: seq<Turn>, n: nat)
    requires Partition(blocks) && Coherent(blocks, mem, m) && Laid(blocks, et) && n <= Parts(et) && n <= |turns|
    requires Stale(mem, et, 0, Parts(et)) && Faithful(m, ReadTo(mem, duration, et, id, turns, n).log)
    requires ReadTo(mem, duration, et, id, turns, n).err == None
    ensures var r := ReadTo(mem, duration, et, id, turns, n);
            |r.log| == n && Stale(CacheAfter(mem, r.log), et, n, Parts(et))
    decreases n
  {
    hide Coherent, Faithful, RunCmd, Partition;
    NoLog(mem, m);
    if n > 0 {
      hide CacheAfter, MemoryAfter, FirstResult, Whole, StepOf, Parts, BlockAddr;
      var r := ReadTo(mem, duration, et, id, turns, n - 1);
      var mem', cmd := CacheAfter(mem, r.log), ReadBlock(et, id, n - 1);
      var b := RunCmd(mem', duration, cmd, turns[n - 1]);
      FaithfulSplit(m, r.log, b.log);
      StaleIsReadAgain(blocks, m, mem, duration, et, id, turns, n - 1);
      ReadToIsSlice(blocks, m, mem, duration, et, id, turns, n - 1);
      ReadBlockIsWhole(blocks, et, id, n - 1);
      assert !ValidAt(mem', BlockAddr(et, n - 1));
      StaleMisses(blocks, mem', duration, cmd, turns[n - 1]);
      CacheAfterConcat(mem, r.log, b.log);
      forall j | n <= j < Parts(et)
        ensures !ValidAt(CacheAfter(mem, r.log + b.log), BlockAddr(et, j))
      {
        StaleBlockStays(blocks, mem', m, duration, et, cmd, turns[n - 1], j, n - 1);
      }
    }
  }

  lemma StaleMisses(blocks: set<Block>, mem: MemMap, duration: int, cmd: FsmCmd, turn: Turn)
    requires Partition(blocks) && Whole(blocks, cmd) && !ValidAt(mem, AddrOf(cmd))
    ensures !Hit(mem, duration, cmd, turn.now)
    ensures var r := RunCmd(mem, duration, cmd, turn); |r.log| <= 1 && (FirstResult(r).err == None ==> |r.log| == 1)
  {
    PlusZero(AddrOf(cmd));
    hide Hit;
    if Hit(mem, duration, cmd, turn.now) {
      HitHasFirst(mem, duration, cmd, turn.now);
    }
    WholeIsOneExchange(mem, duration, cmd, turn);
    hide RunCmd;
  }

  lemma HitHasFirst(mem: MemMap, duration: int, cmd: FsmCmd, now: nat)
    requires Hit(mem, duration, cmd, now)
    ensures ValidAt(mem, Plus(AddrOf(cmd), 0))
  {
  }

  // ------------------------------------------------------------------ end to end

  /** The write went through: no error, and every block was written successfully. */
  ghost predicate WentThrough(mem: MemMap, duration: int, et: EventType, id: Uuid, v: Value, fetches: seq<Turn>, stores: seq<Turn>, spare: seq<byte>)
    requires WellBlocked(et) && Codecs.Sane(et) && |fetches| == |stores| == Parts(et)
  {
    var w := Writing(mem, duration, et, id, v, fetches, stores, spare);
    var r := ReadTo(mem, duration, et, id, fetches, Parts(et));
    w.err == None && |w.log| == |r.log| + Parts(et) && AllSucceed(w.log[|r.log|..])
  }

  /** The buffer of the event in the controller's memory. */
  function BufferOf(m: Memory, et: EventType): seq<byte> {
    Slice(m, et.address, et.blockLength)
  }

  /** The course of a write of an event in whole blocks, when reading and encoding succeed. */
  lemma WritingIs(blocks: set<Block>, mem: MemMap, duration: int, et: EventType, id: Uuid, v: Value,
                  fetches: seq<Turn>, stores: seq<Turn>, spare: seq<byte>)
    requires Laid(blocks, et) && |fetches| == |stores| == Parts(et)
    requires var r := ReadTo(mem, duration, et, id, fetches, Parts(et));
             r.err == None && Codecs.Encode(et, r.body, v).Done?
    ensures var r := ReadTo(mem, duration, et, id, fetches, Parts(et));
            var room := Codecs.Encode(et, r.body, v).value + spare;
            Writing(mem, duration, et, id, v, fetches, stores, spare) ==
            WriteRun(r.log + WriteTo(CacheAfter(mem, r.log), duration, et, id, room, stores, Parts(et)), None)
  {
    hide ReadTo, WriteTo, CacheAfter, Codecs.Encode, Codecs.Sane;
    BlocksExit(et);
    hide Counter, Parts, WellBlocked;
  }

  /** What `VWrite` leaves behind: the encoded buffer in place of the old one, a coherent cache, stale blocks. */
  lemma WriteEffect(blocks: set<Block>, m: Memory, mem: MemMap, duration: int, et: EventType, id: Uuid, v: Value,
                    fetches: seq<Turn>, stores: seq<Turn>, spare: seq<byte>)
    requires Partition(blocks) && Coherent(blocks, mem, m) && Laid(blocks, et)
    requires |fetches| == |stores| == Parts(et)
    requires WentThrough(mem, duration, et, id, v, fetches, stores, spare)
    requires Faithful(m, Writing(mem, duration, et, id, v, fetches, stores, spare).log)
    ensures var log := Writing(mem, duration, et, id, v, fetches, stores, spare).log;
            var r := Codecs.Encode(et, BufferOf(m, et), v);
            && r.Done? && MemoryAfter(m, log) == Store(m, et.address, r.value)
            && Coherent(blocks, CacheAfter(mem, log), MemoryAfter(m, log))
            && Stale(CacheAfter(mem, log), et, 0, Parts(et))
  {
    hide Coherent, Faithful, Partition, ReadTo, WriteTo, Codecs.Encode, AllSucceed, Stale, StepOf, BlockStart, Parts, Counter;
    var r := ReadTo(mem, duration, et, id, fetches, Parts(et));
    var w := Writing(mem, duration, et, id, v, fetches, stores, spare);
    var c := Codecs.Encode(et, r.body, v).value;
    var mem' := CacheAfter(mem, r.log);
    var log := WriteTo(mem', duration, et, id, c + spare, stores, Parts(et));
    assert w.log == r.log + log;
    FaithfulSplit(m, r.log, log);
    ReadToIsSlice(blocks, m, mem, duration, et, id, fetches, Parts(et));
    WriteToStores(blocks, m, mem', duration, et, id, c + spare, stores, Parts(et));
    hide CacheAfter, MemoryAfter;
    assert (c + spare)[..et.blockLength] == c;
    assert w.log[|r.log|..] == log;
    CacheAfterConcat(mem, r.log, log);
    MemoryAfterConcat(m, r.log, log);
  }

  /** Outside the event nothing changes; inside only bits the codec owns. */
  ghost predicate OnlyOwnBits(et: EventType, m: Memory, m': Memory) {
    && (forall a: Addr :: Offset(et.address, a) >= et.blockLength ==> m'[a] == m[a])
    && (forall j: nat, k: nat :: j < et.blockLength && k < 8 && !Codecs.OwnsBit(et, j, k) ==>
          Bit(m'[Plus(et.address, j)], k) == Bit(m[Plus(et.address, j)], k))
  }

  /** Storing the encoded buffer keeps to the event's own bits exactly if encoding did. */
  lemma StoreFrame(et: EventType, m: Memory, v: Value)
    requires Codecs.Sane(et) && Codecs.Encode(et, BufferOf(m, et), v).Done?
    ensures var b := BufferOf(m, et);
            var c := Codecs.Encode(et, b, v).value;
            && (OnlyOwnBits(et, m, Store(m, et.address, c)) <==> Codecs.SameElsewhere(et, b, c))
            && (Codecs.StaysInside(et, v, et.blockLength) ==> OnlyOwnBits(et, m, Store(m, et.address, c)))
  {
    hide Codecs.Encode, Codecs.StaysInside, Bit, Codecs.OwnsBit;
    var b := BufferOf(m, et);
    var c := Codecs.Encode(et, b, v).value;
    var m' := Store(m, et.address, c);
    if Codecs.StaysInside(et, v, et.blockLength) {
      Codecs.EncodeFrame(et, b, v);
    }
    forall j: nat | j < et.blockLength
      ensures m'[Plus(et.address, j)] == c[j] && m[Plus(et.address, j)] == b[j]
    {
      OffsetPlus(et.address, j);
    }
  }

  /**
   * End to end: after `VWrite` every bit the codec does not own is unchanged, and the next `VRead`
   * goes past the cache, block by block, and returns the decoded form of what was encoded - for a
   * representable value, that value.
   */
  lemma WriteThenRead(blocks: set<Block>, m: Memory, mem: MemMap, duration: int, et: EventType, id: Uuid, v: Value,
                      fetches: seq<Turn>, stores: seq<Turn>, spare: seq<byte>, id': Uuid, turns: seq<Turn>)
    requires Partition(blocks) && Coherent(blocks, mem, m) && Laid(blocks, et)
    requires |fetches| == |stores| == |turns| == Parts(et)
    requires WentThrough(mem, duration, et, id, v, fetches, stores, spare)
    requires Faithful(m, Writing(mem, duration, et, id, v, fetches, stores, spare).log)
    requires var log := Writing(mem, duration, et, id, v, fetches, stores, spare).log;
             var r := ReadTo(CacheAfter(mem, log), duration, et, id', turns, Parts(et));
             Faithful(MemoryAfter(m, log), r.log) && r.err == None
    ensures var log := Writing(mem, duration, et, id, v, fetches, stores, spare).log;
            var r := ReadTo(CacheAfter(mem, log), duration, et, id', turns, Parts(et));
            var c := Codecs.Encode(et, BufferOf(m, et), v);
            && c.Done? && r.body == c.value && |r.log| == Parts(et)
            && (Codecs.StaysInside(et, v, et.blockLength) ==> OnlyOwnBits(et, m, MemoryAfter(m, log)))
            && (Codecs.Representable(et, v) && et.blockLength >= et.bytePosition as int + et.byteLength ==>
                  ReadOutcome(et, r) == (Some(Codecs.ReadBack(et, v)), None))
  {
    hide Coherent, Faithful, Partition, ReadTo, Codecs.Encode, Codecs.Decode, AllSucceed, Stale, Codecs.StaysInside,
      Codecs.Representable, Codecs.ReadBack, OnlyOwnBits, Writing, WentThrough, StepOf, BlockStart, Parts;
    var log := Writing(mem, duration, et, id, v, fetches, stores, spare).log;
    var mem', m' := CacheAfter(mem, log), MemoryAfter(m, log);
    WriteEffect(blocks, m, mem, duration, et, id, v, fetches, stores, spare);
    hide CacheAfter, MemoryAfter;
    ReadToIsSlice(blocks, m', mem', duration, et, id', turns, Parts(et));
    StaleIsReadAgain(blocks, m', mem', duration, et, id', turns, Parts(et));
    var b := BufferOf(m, et);
    var c := Codecs.Encode(et, b, v).value;
    StoreThenSlice(m, et.address, c);
    if Codecs.StaysInside(et, v, et.blockLength) {
      StoreFrame(et, m, v);
    }
    if Codecs.Representable(et, v) && et.blockLength >= et.bytePosition as int + et.byteLength {
      Codecs.ReadsBack(et, b, v);
    }
  }
}
