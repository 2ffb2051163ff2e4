/** `VWrite` does not look at the errors of its write phase: what it leaves behind when some blocks fail. */
module PartialWrites {
  import opened Bytes
  import opened Telegram
  import opened Events
  import opened Refinement
  import opened Commands
  import opened Cache
  import opened BlockAccess
  import opened RoundTrip
  import opened Served
  import Codecs

  /** The write of block j reached the engine and succeeded. */
  ghost predicate BlockStored(mem: MemMap, duration: int, et: EventType, id: Uuid, b: seq<byte>, turns: seq<Turn>, j: nat)
    requires j < |turns|
  {
    var log := WriteTo(mem, duration, et, id, b, turns, j);
    var x := RunCmd(CacheAfter(mem, log), duration, WriteBlock(et, id, b, j), turns[j]).log;
    |x| == 1 && AllSucceed(x)
  }

  /** Block j after the write: the new one if its write succeeded, else the old one. */
  ghost function Part(m: Memory, mem: MemMap, duration: int, et: EventType, id: Uuid, b: seq<byte>, turns: seq<Turn>, j: nat): (s: seq<byte>)
    requires j < |turns| && BlockStart(et, j + 1) <= |b|
    ensures |s| == StepOf(et) && BlockStart(et, j + 1) == BlockStart(et, j) + StepOf(et)
  {
    StartNext(et, j);
    if BlockStored(mem, duration, et, id, b, turns, j) then b[BlockStart(et, j)..BlockStart(et, j + 1)]
    else Slice(m, BlockAddr(et, j), StepOf(et))
  }

  ghost function Merged(m: Memory, mem: MemMap, duration: int, et: EventType, id: Uuid, b: seq<byte>, turns: seq<Turn>, n: nat): (s: seq<byte>)
    requires n <= |turns| && BlockStart(et, n) <= |b|
    ensures |s| == BlockStart(et, n)
  {
    if n == 0 then []
    else
      StartNext(et, n - 1);
      Merged(m, mem, duration, et, id, b, turns, n - 1) + Part(m, mem, duration, et, id, b, turns, n - 1)
  }

  lemma MergedNext(m: Memory, mem: MemMap, duration: int, et: EventType, id: Uuid, b: seq<byte>, turns: seq<Turn>, n: nat)
    requires n < |turns| && BlockStart(et, n + 1) <= |b|
    ensures BlockStart(et, n + 1) == BlockStart(et, n) + StepOf(et)
    ensures Merged(m, mem, duration, et, id, b, turns, n + 1) ==
            Merged(m, mem, duration, et, id, b, turns, n) + Part(m, mem, duration, et, id, b, turns, n)
  {
    hide Part;
  }

  lemma NothingMerged(m: Memory, mem: MemMap, duration: int, et: EventType, id: Uuid, b: seq<byte>, turns: seq<Turn>)
    ensures BlockStart(et, 0) == 0 && Merged(m, mem, duration, et, id, b, turns, 0) == []
  {
  }

  /** A write of a whole block that does not succeed leaves the memory alone. */
  lemma WriteOrNot(blocks: set<Block>, mem: MemMap, m: Memory, duration: int, cmd: FsmCmd, turn: Turn)
    requires Partition(blocks) && Coherent(blocks, mem, m) && Whole(blocks, cmd) && IsWrite(cmd)
    requires Faithful(m, RunCmd(mem, duration, cmd, turn).log)
    ensures var x := RunCmd(mem, duration, cmd, turn).log;
            MemoryAfter(m, x) == if |x| == 1 && AllSucceed(x) then Store(m, AddrOf(cmd), cmd.args) else m
  {
    hide Coherent, Faithful, Hit, CacheAfter, MemoryAfter, RunCmd, Store;
    BlockFits(blocks, cmd);
    CommandRefinesMemory(blocks, mem, m, duration, cmd, turn);
    hide Partition, Whole;
    WholeIsOneExchange(mem, duration, cmd, turn);
    ReadsAreNotWrites(cmd);
    if Hit(mem, duration, cmd, turn.now) {
      HitIsRead(mem, duration, cmd, turn.now);
    }
  }

  /** Storing what is there anyway behind a stored range changes nothing. */
  lemma StoreSame(m: Memory, a: Addr, x: seq<byte>, n: nat)
    requires |x| + n <= 0x1_0000
    ensures Store(m, a, x + Slice(m, Plus(a, |x|), n)) == Store(m, a, x)
  {
    var l, r := Store(m, a, x + Slice(m, Plus(a, |x|), n)), Store(m, a, x);
    forall p: Addr
      ensures l[p] == r[p]
    {
      var k := Offset(a, p);
      if |x| <= k < |x| + n {
        PlusPlus(a, |x|, k - |x|);
        PlusOffset(a, p);
      }
    }
  }

  lemma {:induction false} WriteToMerges(
    blocks: set<Block>, m: Memory, mem: MemMap, duration: int, et: EventType, id: Uuid, b: seq<byte>, turns: seq<Turn>, n: nat)
    requires Partition(blocks) && Coherent(blocks, mem, m) && Laid(blocks, et) && |b| >= et.blockLength
    requires n <= Parts(et) && n <= |turns|
    requires Faithful(m, WriteTo(mem, duration, et, id, b, turns, n))
    ensures BlockStart(et, n) <= |b|
    ensures MemoryAfter(m, WriteTo(mem, duration, et, id, b, turns, n)) ==
            Store(m, et.address, Merged(m, mem, duration, et, id, b, turns, n))
    decreases n
  {
    hide Coherent, Faithful, RunCmd, Partition, WellBlocked, WroteTo, WriteTo, CacheAfter, MemoryAfter, WriteBlock, Laid, Parts,
      BlockStored, Store, Codecs.Sane, StepOf, Merged, Part, BlockStart;
    if n == 0 {
      NoLog(mem, m);
      NothingMerged(m, mem, duration, et, id, b, turns);
      NothingWritten(mem, duration, et, id, b, turns);
      StoreNothing(m, et.address);
    } else {
      var j := n - 1;
      WriteNext(mem, duration, et, id, b, turns, j);
      var log := WriteTo(mem, duration, et, id, b, turns, j);
      var x := RunCmd(CacheAfter(mem, log), duration, WriteBlock(et, id, b, j), turns[j]).log;
      FaithfulSplit(m, log, x);
      MemoryAfterConcat(m, log, x);
      WriteToMerges(blocks, m, mem, duration, et, id, b, turns, j);
      MergeStep(blocks, m, mem, duration, et, id, b, turns, j);
    }
  }

  lemma MergeStep(
    blocks: set<Block>, m: Memory, mem: MemMap, duration: int, et: EventType, id: Uuid, b: seq<byte>, turns: seq<Turn>, j: nat)
    requires Partition(blocks) && Coherent(blocks, mem, m) && Laid(blocks, et) && |b| >= et.blockLength
    requires j < Parts(et) && j < |turns| && BlockStart(et, j) <= |b|
    requires var log := WriteTo(mem, duration, et, id, b, turns, j);
             && Faithful(m, log) && MemoryAfter(m, log) == Store(m, et.address, Merged(m, mem, duration, et, id, b, turns, j))
             && Faithful(MemoryAfter(m, log), RunCmd(CacheAfter(mem, log), duration, WriteBlock(et, id, b, j), turns[j]).log)
    ensures BlockStart(et, j + 1) <= |b|
    ensures var log := WriteTo(mem, duration, et, id, b, turns, j);
            var x := RunCmd(CacheAfter(mem, log), duration, WriteBlock(et, id, b, j), turns[j]).log;
            MemoryAfter(MemoryAfter(m, log), x) == Store(m, et.address, Merged(m, mem, duration, et, id, b, turns, j + 1))
  {
    BlockInside(et, j);
    hide Coherent, Faithful, RunCmd, Partition, WellBlocked, WriteTo, CacheAfter, MemoryAfter, Parts, AllSucceed,
      Store, Codecs.Sane, StepOf, BlockStart, Plus, Slice, Whole, IsWrite, WriteBlock, AddrOf;
    var log := WriteTo(mem, duration, et, id, b, turns, j);
    var cmd := WriteBlock(et, id, b, j);
    WriteToStores(blocks, m, mem, duration, et, id, b, turns, j);
    hide Laid;
    WriteBlockIsWhole(blocks, et, id, b, j);
    WriteOrNot(blocks, CacheAfter(mem, log), MemoryAfter(m, log), duration, cmd, turns[j]);
    var before := Merged(m, mem, duration, et, id, b, turns, j);
    MergedNext(m, mem, duration, et, id, b, turns, j);
    hide Merged;
    if BlockStored(mem, duration, et, id, b, turns, j) {
      StoreStore(m, et.address, before, cmd.args);
    } else {
      StoreSame(m, et.address, before, StepOf(et));
    }
  }

  /** The block is the same in the encoded buffer and in memory. */
  predicate BlockEqual(m: Memory, et: EventType, c: seq<byte>, j: nat)
    requires BlockStart(et, j + 1) <= |c|
  {
    c[BlockStart(et, j)..BlockStart(et, j + 1)] == Slice(m, BlockAddr(et, j), StepOf(et))
  }

  lemma {:induction false} MergedIsBuffer(m: Memory, mem: MemMap, duration: int, et: EventType, id: Uuid, b: seq<byte>, turns: seq<Turn>, n: nat)
    requires n <= |turns| && forall j :: 0 <= j <= n ==> BlockStart(et, j) <= |b|
    ensures Merged(m, mem, duration, et, id, b, turns, n) == b[..BlockStart(et, n)] <==>
              forall j :: 0 <= j < n ==> BlockStored(mem, duration, et, id, b, turns, j) || BlockEqual(m, et, b, j)
  {
    hide *;
    if n == 0 {
      NothingMerged(m, mem, duration, et, id, b, turns);
    } else {
      var j := n - 1;
      MergedIsBuffer(m, mem, duration, et, id, b, turns, j);
      MergedNext(m, mem, duration, et, id, b, turns, j);
      PartIsBuffer(m, mem, duration, et, id, b, turns, j);
      var x, y := Merged(m, mem, duration, et, id, b, turns, j), b[..BlockStart(et, j)];
      var s, t := Part(m, mem, duration, et, id, b, turns, j), b[BlockStart(et, j)..BlockStart(et, n)];
      assert b[..BlockStart(et, n)] == y + t;
      SplitEqual(x, s, y, t);
    }
  }

  lemma PartIsBuffer(m: Memory, mem: MemMap, duration: int, et: EventType, id: Uuid, b: seq<byte>, turns: seq<Turn>, j: nat)
    requires j < |turns| && BlockStart(et, j + 1) <= |b|
    ensures Part(m, mem, duration, et, id, b, turns, j) == b[BlockStart(et, j)..BlockStart(et, j + 1)] <==>
              BlockStored(mem, duration, et, id, b, turns, j) || BlockEqual(m, et, b, j)
  {
    hide BlockStored;
  }

  lemma SplitEqual(x: seq<byte>, s: seq<byte>, y: seq<byte>, t: seq<byte>)
    requires |x| == |y|
    ensures x + s == y + t <==> x == y && s == t
  {
    assert (x + s)[..|x|] == x && (x + s)[|x|..] == s;
    assert (y + t)[..|x|] == y && (y + t)[|x|..] == t;
  }

  lemma StoreInjective(m: Memory, a: Addr, x: seq<byte>, y: seq<byte>)
    requires |x| == |y| <= 0x1_0000
    ensures Store(m, a, x) == Store(m, a, y) <==> x == y
  {
    StoreThenSlice(m, a, x);
    StoreThenSlice(m, a, y);
  }

  /**
   * A write that reports no error has stored the encoded value exactly if, for each block, its exchange
   * succeeded or the block already was what should have been written.
   */
  lemma SilentWriteIff(blocks: set<Block>, m: Memory, mem: MemMap, duration: int, et: EventType, id: Uuid, v: Value,
                       fetches: seq<Turn>, stores: seq<Turn>, spare: seq<byte>)
    requires Partition(blocks) && Coherent(blocks, mem, m) && Laid(blocks, et)
    requires |fetches| == |stores| == Parts(et)
    requires var w := Writing(mem, duration, et, id, v, fetches, stores, spare); w.err == None && Faithful(m, w.log)
    ensures var r := ReadTo(mem, duration, et, id, fetches, Parts(et));
            var c := Codecs.Encode(et, BufferOf(m, et), v);
            c.Done? && BlockStart(et, Parts(et)) == |c.value| &&
            (MemoryAfter(m, Writing(mem, duration, et, id, v, fetches, stores, spare).log) == Store(m, et.address, c.value) <==>
             forall j :: 0 <= j < Parts(et) ==>
               BlockStored(CacheAfter(mem, r.log), duration, et, id, c.value + spare, stores, j) ||
               (BlockStart(et, j + 1) <= |c.value| && BlockEqual(m, et, c.value, j)))
  {
    hide Coherent, Faithful, Partition, ReadTo, WriteTo, Codecs.Encode, AllSucceed, StepOf, BlockStart, Parts, Counter,
      Merged, BlockStored, Store, BlockAddr, Slice, Codecs.Sane, MemoryAfter, CacheAfter;
    var r := ReadTo(mem, duration, et, id, fetches, Parts(et));
    WriteRead(blocks, m, mem, duration, et, id, v, fetches, stores, spare);
    hide Writing;
    var c := Codecs.Encode(et, r.body, v).value;
    var room := c + spare;
    var log := WriteTo(CacheAfter(mem, r.log), duration, et, id, room, stores, Parts(et));
    FaithfulSplit(m, r.log, log);
    MemoryAfterConcat(m, r.log, log);
    WriteToMerges(blocks, m, CacheAfter(mem, r.log), duration, et, id, room, stores, Parts(et));
    forall j | 0 <= j <= Parts(et)
      ensures BlockStart(et, j) <= et.blockLength
    {
      if j < Parts(et) {
        BlockInside(et, j);
      }
    }
    hide Laid, WellBlocked;
    MergedIsBuffer(m, CacheAfter(mem, r.log), duration, et, id, room, stores, Parts(et));
    assert room[..|c|] == c;
    StoreInjective(m, et.address, Merged(m, CacheAfter(mem, r.log), duration, et, id, room, stores, Parts(et)), c);
    forall j | 0 <= j < Parts(et)
      ensures BlockEqual(m, et, room, j) <==> BlockEqual(m, et, c, j)
    {
      SameBlock(m, et, room, c, j);
    }
  }

  lemma SameBlock(m: Memory, et: EventType, room: seq<byte>, c: seq<byte>, j: nat)
    requires BlockStart(et, j + 1) <= |c| <= |room| && room[..|c|] == c
    ensures BlockEqual(m, et, room, j) <==> BlockEqual(m, et, c, j)
  {
    assert BlockStart(et, j) <= BlockStart(et, j + 1);
    assert room[..|c|][BlockStart(et, j)..BlockStart(et, j + 1)] == room[BlockStart(et, j)..BlockStart(et, j + 1)];
    assert room[BlockStart(et, j)..BlockStart(et, j + 1)] == c[BlockStart(et, j)..BlockStart(et, j + 1)];
  }

  /** The read phase of a write without error: the event's current bytes, from a coherent cache. */
  lemma WriteRead(blocks: set<Block>, m: Memory, mem: MemMap, duration: int, et: EventType, id: Uuid, v: Value,
                  fetches: seq<Turn>, stores: seq<Turn>, spare: seq<byte>)
    requires Partition(blocks) && Coherent(blocks, mem, m) && Laid(blocks, et)
    requires |fetches| == |stores| == Parts(et)
    requires var w := Writing(mem, duration, et, id, v, fetches, stores, spare); w.err == None && Faithful(m, w.log)
    ensures var r := ReadTo(mem, duration, et, id, fetches, Parts(et));
            var c := Codecs.Encode(et, r.body, v);
            && r.err == None && r.body == BufferOf(m, et) && c.Done? && |c.value| == et.blockLength == BlockStart(et, Parts(et))
            && MemoryAfter(m, r.log) == m && Coherent(blocks, CacheAfter(mem, r.log), m)
            && Writing(mem, duration, et, id, v, fetches, stores, spare).log ==
               r.log + WriteTo(CacheAfter(mem, r.log), duration, et, id, c.value + spare, stores, Parts(et))
  {
    hide Coherent, Faithful, Partition, ReadTo, WriteTo, Codecs.Encode, StepOf, BlockStart, Parts, Counter, Slice, MemoryAfter, CacheAfter;
    var r := ReadTo(mem, duration, et, id, fetches, Parts(et));
    var w := Writing(mem, duration, et, id, v, fetches, stores, spare);
    FaithfulSplit(m, r.log, w.log[|r.log|..]);
    assert r.log + w.log[|r.log|..] == w.log;
    ReadToIsSlice(blocks, m, mem, duration, et, id, fetches, Parts(et));
  }

  // ------------------------------------------------------------ silent failures

  /** The controller does not acknowledge. */
  function RefusingTurn(cmd: FsmCmd): Turn {
    Turn(1, [Reply.Answered(FsmResult(cmd.id, Some(NoAck), []))])
  }

  /** A refused write is one failed exchange. */
  lemma RefusedOnce(blocks: set<Block>, mem: MemMap, m: Memory, duration: int, cmd: FsmCmd)
    requires Partition(blocks) && Whole(blocks, cmd) && IsWrite(cmd)
    ensures var x := RunCmd(mem, duration, cmd, RefusingTurn(cmd)).log;
            |x| == 1 && x[0].result.err == Some(NoAck) && Faithful(m, x) && MemoryAfter(m, x) == m
  {
    hide Hit, ChunkCount, ChunkResult, Serve, AnsweredCount, Partition;
    BlockFits(blocks, cmd);
    var turn := RefusingTurn(cmd);
    assert turn.replies[1..] == [];
    RefusalCounts(cmd);
    SingleChunk(cmd, turn);
    WholeIsOneExchange(mem, duration, cmd, turn);
    ReadsAreNotWrites(cmd);
    if Hit(mem, duration, cmd, turn.now) {
      HitIsRead(mem, duration, cmd, turn.now);
    }
    var x := RunCmd(mem, duration, cmd, turn).log;
    assert x == [x[0]] && x[..0] == [];
  }

  lemma RefusalCounts(cmd: FsmCmd)
    ensures AnsweredCount(RefusingTurn(cmd).replies) == 1
  {
    assert RefusingTurn(cmd).replies[1..] == [];
  }

  ghost predicate RefusesWriting(m: Memory, mem: MemMap, duration: int, et: EventType, id: Uuid, b: seq<byte>, turns: seq<Turn>, n: nat)
    requires n <= |turns|
  {
    var log := WriteTo(mem, duration, et, id, b, turns, n);
    && Faithful(m, log) && MemoryAfter(m, log) == m && |log| == n
    && forall i :: 0 <= i < n ==> log[i].result.err == Some(NoAck)
  }

  lemma {:induction false} WritingRefused(
    blocks: set<Block>, m: Memory, mem: MemMap, duration: int, et: EventType, id: Uuid, b: seq<byte>, n: nat)
    returns (turns: seq<Turn>)
    requires Partition(blocks) && Laid(blocks, et) && |b| >= et.blockLength && n <= Parts(et)
    ensures |turns| == n && RefusesWriting(m, mem, duration, et, id, b, turns, n)
    decreases n
  {
    hide WriteTo, RunCmd, CacheAfter, MemoryAfter, WriteBlock, Faithful, Partition, Parts, Whole, RefusingTurn, BlockStart,
      WellBlocked, Codecs.Sane, Counter, Laid;
    if n == 0 {
      turns := [];
      NothingWritten(mem, duration, et, id, b, turns);
      StartsFrom(m);
    } else {
      var before := WritingRefused(blocks, m, mem, duration, et, id, b, n - 1);
      var log := WriteTo(mem, duration, et, id, b, before, n - 1);
      WriteBlockIsWhole(blocks, et, id, b, n - 1);
      var cmd := WriteBlock(et, id, b, n - 1);
      RefusedOnce(blocks, CacheAfter(mem, log), m, duration, cmd);
      var t := RefusingTurn(cmd);
      turns := before + [t];
      WriteToPrefix(mem, duration, et, id, b, before, t, n - 1);
      WriteNext(mem, duration, et, id, b, turns, n - 1);
      var x := RunCmd(CacheAfter(mem, log), duration, cmd, t).log;
      FaithfulSplit(m, log, x);
      MemoryAfterConcat(m, log, x);
    }
  }

  /**
   * "No error" does not mean "stored": whatever value can be encoded, there are replies - every write is
   * refused with `NoAck` - with which `VWrite` reports no error and the memory is as before.
   */
  lemma SilentFailure(blocks: set<Block>, m: Memory, mem: MemMap, duration: int, et: EventType, id: Uuid, v: Value, spare: seq<byte>)
    returns (fetches: seq<Turn>, stores: seq<Turn>)
    requires Partition(blocks) && Coherent(blocks, mem, m) && Laid(blocks, et)
    requires Codecs.Encode(et, BufferOf(m, et), v).Done?
    ensures |fetches| == |stores| == Parts(et)
    ensures var w := Writing(mem, duration, et, id, v, fetches, stores, spare);
            && w.err == None && Faithful(m, w.log) && MemoryAfter(m, w.log) == m
            && |w.log| >= Parts(et) && forall i :: |w.log| - Parts(et) <= i < |w.log| ==> w.log[i].result.err == Some(NoAck)
  {
    hide Coherent, Faithful, Partition, Codecs.Encode, CacheAfter, MemoryAfter, StepOf, BlockStart, Parts, ReadTo, WriteTo,
      Writing, Slice, Codecs.Sane, WellBlocked;
    fetches := ReadingServed(blocks, m, mem, duration, et, id, Parts(et));
    ReadWhole(blocks, m, mem, duration, et, id, fetches);
    var r := ReadTo(mem, duration, et, id, fetches, Parts(et));
    var room := Codecs.Encode(et, r.body, v).value + spare;
    stores := WritingRefused(blocks, m, CacheAfter(mem, r.log), duration, et, id, room, Parts(et));
    var log := WriteTo(CacheAfter(mem, r.log), duration, et, id, room, stores, Parts(et));
    FaithfulSplit(m, r.log, log);
    MemoryAfterConcat(m, r.log, log);
    WritingIs(blocks, mem, duration, et, id, v, fetches, stores, spare);
  }
}
