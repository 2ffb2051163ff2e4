/** A controller that serves every command: writes go through exactly when the value can be encoded. */
module Served {
  import opened Bytes
  import opened Telegram
  import opened Events
  import opened Refinement
  import opened Commands
  import opened Cache
  import opened BlockAccess
  import opened RoundTrip
  import Codecs

  /** The command is answered by the atomic result of the memory m. */
  function ServingTurn(m: Memory, cmd: FsmCmd): Turn {
    Turn(1, [Reply.Answered(FsmResult(cmd.id, None, Serve(m, RequestOf(cmd)).body))])
  }

  lemma AnswerCounts(m: Memory, cmd: FsmCmd)
    ensures AnsweredCount(ServingTurn(m, cmd).replies) == 1
  {
    assert ServingTurn(m, cmd).replies[1..] == [];
  }

  /** Such a command is a hit or one successful exchange; a write always is an exchange. */
  lemma ServedOnce(blocks: set<Block>, mem: MemMap, m: Memory, duration: int, cmd: FsmCmd)
    requires Partition(blocks) && Whole(blocks, cmd)
    ensures var r := RunCmd(mem, duration, cmd, ServingTurn(m, cmd));
            && (r.loss == None ==> |r.results| == 1) && FirstResult(r).err == None
            && Faithful(m, r.log) && AllSucceed(r.log) && |r.log| <= 1 && (IsWrite(cmd) ==> |r.log| == 1)
  {
    hide Hit, ChunkCount, ChunkResult, Serve, AnsweredCount, Partition, MemoryAfter;
    BlockFits(blocks, cmd);
    var turn := ServingTurn(m, cmd);
    var r := RunCmd(mem, duration, cmd, turn);
    AnswerCounts(m, cmd);
    SingleChunk(cmd, turn);
    WholeIsOneExchange(mem, duration, cmd, turn);
    if r.log == [] {
      ReadsAreNotWrites(cmd);
      if IsWrite(cmd) && Hit(mem, duration, cmd, turn.now) {
        HitIsRead(mem, duration, cmd, turn.now);
      }
    } else {
      assert r.log == [r.log[0]] && r.log[0].result == turn.replies[0].result;
      assert r.log[..0] == [];
      StartsFrom(m);
    }
  }

  lemma BlockFits(blocks: set<Block>, cmd: FsmCmd)
    requires Partition(blocks) && Whole(blocks, cmd)
    ensures 1 <= cmd.resultLen <= CHUNK && Encodable(cmd)
  {
    assert BlockOf(cmd) in blocks;
  }

  lemma StartsFrom(m: Memory)
    ensures MemoryAfter(m, []) == m && Faithful(m, []) && AllSucceed([])
  {
  }

  // ------------------------------------------------- later turns do not matter

  lemma {:induction false} ReadToPrefix(mem: MemMap, duration: int, et: EventType, id: Uuid, turns: seq<Turn>, t: Turn, n: nat)
    requires n <= |turns|
    ensures ReadTo(mem, duration, et, id, turns + [t], n) == ReadTo(mem, duration, et, id, turns, n)
    decreases n
  {
    hide *;
    if n == 0 {
      NothingRead(mem, duration, et, id, turns);
      NothingRead(mem, duration, et, id, turns + [t]);
    } else {
      ReadToPrefix(mem, duration, et, id, turns, t, n - 1);
      assert (turns + [t])[n - 1] == turns[n - 1];
      if ReadTo(mem, duration, et, id, turns, n - 1).err == None {
        ReadNext(mem, duration, et, id, turns, n - 1);
        ReadNext(mem, duration, et, id, turns + [t], n - 1);
      } else {
        ReadStops(mem, duration, et, id, turns, n - 1, n);
        ReadStops(mem, duration, et, id, turns + [t], n - 1, n);
      }
    }
  }

  lemma {:induction false} WriteToPrefix(
    mem: MemMap, duration: int, et: EventType, id: Uuid, b: seq<byte>, turns: seq<Turn>, t: Turn, n: nat)
    requires n <= |turns|
    ensures WriteTo(mem, duration, et, id, b, turns + [t], n) == WriteTo(mem, duration, et, id, b, turns, n)
    decreases n
  {
    hide *;
    if n == 0 {
      NothingWritten(mem, duration, et, id, b, turns);
      NothingWritten(mem, duration, et, id, b, turns + [t]);
    } else {
      WriteToPrefix(mem, duration, et, id, b, turns, t, n - 1);
      assert (turns + [t])[n - 1] == turns[n - 1];
      WriteNext(mem, duration, et, id, b, turns, n - 1);
      WriteNext(mem, duration, et, id, b, turns + [t], n - 1);
    }
  }

  // ------------------------------------------------------------- whole events

  /** The turns serve the reading of the first n blocks. */
  ghost predicate ServesReading(m: Memory, mem: MemMap, duration: int, et: EventType, id: Uuid, turns: seq<Turn>, n: nat)
    requires n <= |turns|
  {
    var r := ReadTo(mem, duration, et, id, turns, n);
    Faithful(m, r.log) && r.err == None
  }

  lemma ReadsOneMore(m: Memory, mem: MemMap, duration: int, et: EventType, id: Uuid, turns: seq<Turn>, j: nat)
    requires j < |turns| && ServesReading(m, mem, duration, et, id, turns, j)
    requires var r := ReadTo(mem, duration, et, id, turns, j);
             var b := RunCmd(CacheAfter(mem, r.log), duration, ReadBlock(et, id, j), turns[j]);
             && MemoryAfter(m, r.log) == m && Faithful(m, b.log)
             && (b.loss == None ==> |b.results| == 1) && FirstResult(b).err == None
    ensures ServesReading(m, mem, duration, et, id, turns, j + 1)
  {
    hide ReadTo, RunCmd, CacheAfter, MemoryAfter, ReadBlock, FirstResult, Faithful;
    ReadNext(mem, duration, et, id, turns, j);
    var r := ReadTo(mem, duration, et, id, turns, j);
    FaithfulSplit(m, r.log, RunCmd(CacheAfter(mem, r.log), duration, ReadBlock(et, id, j), turns[j]).log);
  }

  lemma {:induction false} ReadingServed(blocks: set<Block>, m: Memory, mem: MemMap, duration: int, et: EventType, id: Uuid, n: nat)
    returns (turns: seq<Turn>)
    requires Partition(blocks) && Coherent(blocks, mem, m) && Laid(blocks, et) && n <= Parts(et)
    ensures |turns| == n && ServesReading(m, mem, duration, et, id, turns, n)
    decreases n
  {
    hide ReadTo, RunCmd, CacheAfter, MemoryAfter, ReadBlock, FirstResult, Faithful, Coherent, Partition, Laid, Parts, Whole, ServingTurn,
      BlockStart, Slice;
    if n == 0 {
      turns := [];
      NothingRead(mem, duration, et, id, turns);
      StartsFrom(m);
    } else {
      var before := ReadingServed(blocks, m, mem, duration, et, id, n - 1);
      var r := ReadTo(mem, duration, et, id, before, n - 1);
      ReadToIsSlice(blocks, m, mem, duration, et, id, before, n - 1);
      ReadBlockIsWhole(blocks, et, id, n - 1);
      var t := ServingTurn(m, ReadBlock(et, id, n - 1));
      ServedOnce(blocks, CacheAfter(mem, r.log), m, duration, ReadBlock(et, id, n - 1));
      turns := before + [t];
      ReadToPrefix(mem, duration, et, id, before, t, n - 1);
      ReadsOneMore(m, mem, duration, et, id, turns, n - 1);
    }
  }

  /** The turns serve the writing of the first n blocks. */
  ghost predicate ServesWriting(
    m: Memory, mem: MemMap, duration: int, et: EventType, id: Uuid, b: seq<byte>, turns: seq<Turn>, n: nat)
    requires n <= |turns|
  {
    var log := WriteTo(mem, duration, et, id, b, turns, n);
    Faithful(m, log) && AllSucceed(log) && |log| == n
  }

  lemma WritesOneMore(m: Memory, mem: MemMap, duration: int, et: EventType, id: Uuid, b: seq<byte>, turns: seq<Turn>, j: nat)
    requires j < |turns| && ServesWriting(m, mem, duration, et, id, b, turns, j)
    requires var log := WriteTo(mem, duration, et, id, b, turns, j);
             var x := RunCmd(CacheAfter(mem, log), duration, WriteBlock(et, id, b, j), turns[j]).log;
             Faithful(MemoryAfter(m, log), x) && AllSucceed(x) && |x| == 1
    ensures ServesWriting(m, mem, duration, et, id, b, turns, j + 1)
  {
    hide WriteTo, RunCmd, CacheAfter, MemoryAfter, WriteBlock, Faithful, AllSucceed;
    WriteNext(mem, duration, et, id, b, turns, j);
    var log := WriteTo(mem, duration, et, id, b, turns, j);
    var x := RunCmd(CacheAfter(mem, log), duration, WriteBlock(et, id, b, j), turns[j]).log;
    FaithfulSplit(m, log, x);
    SucceedSplit(log, x);
  }

  lemma NothingServed(m: Memory, mem: MemMap, duration: int, et: EventType, id: Uuid, b: seq<byte>, turns: seq<Turn>)
    ensures ServesWriting(m, mem, duration, et, id, b, turns, 0)
  {
    hide MemoryAfter, Faithful;
    NothingWritten(mem, duration, et, id, b, turns);
    StartsFrom(m);
  }

  lemma StillServes(m: Memory, mem: MemMap, duration: int, et: EventType, id: Uuid, b: seq<byte>, turns: seq<Turn>, t: Turn, n: nat)
    requires n <= |turns| && ServesWriting(m, mem, duration, et, id, b, turns, n)
    ensures ServesWriting(m, mem, duration, et, id, b, turns + [t], n)
  {
    hide WriteTo, Faithful, AllSucceed;
    WriteToPrefix(mem, duration, et, id, b, turns, t, n);
  }

  lemma {:induction false} WritingServed(
    blocks: set<Block>, m: Memory, mem: MemMap, duration: int, et: EventType, id: Uuid, b: seq<byte>, n: nat)
    returns (turns: seq<Turn>)
    requires Partition(blocks) && Laid(blocks, et) && |b| >= et.blockLength && n <= Parts(et)
    ensures |turns| == n && ServesWriting(m, mem, duration, et, id, b, turns, n)
    decreases n
  {
    hide WriteTo, RunCmd, CacheAfter, MemoryAfter, WriteBlock, FirstResult, Faithful, AllSucceed, Partition, Parts, Whole, ServingTurn,
      BlockStart, WellBlocked, Codecs.Sane, ServesWriting, Counter;
    if n == 0 {
      turns := [];
      NothingServed(m, mem, duration, et, id, b, turns);
    } else {
      var before := WritingServed(blocks, m, mem, duration, et, id, b, n - 1);
      var log := WriteTo(mem, duration, et, id, b, before, n - 1);
      WriteBlockIsWhole(blocks, et, id, b, n - 1);
      var cmd := WriteBlock(et, id, b, n - 1);
      ServedOnce(blocks, CacheAfter(mem, log), MemoryAfter(m, log), duration, cmd);
      var t := ServingTurn(MemoryAfter(m, log), cmd);
      turns := before + [t];
      WriteToPrefix(mem, duration, et, id, b, before, t, n - 1);
      StillServes(m, mem, duration, et, id, b, before, t, n - 1);
      WritesOneMore(m, mem, duration, et, id, b, turns, n - 1);
    }
  }

  /** Faithful replies with which the write goes through. */
  ghost predicate CanWrite(m: Memory, mem: MemMap, duration: int, et: EventType, id: Uuid, v: Value,
                           fetches: seq<Turn>, stores: seq<Turn>, spare: seq<byte>)
    requires WellBlocked(et) && Codecs.Sane(et)
  {
    && |fetches| == |stores| == Parts(et)
    && WentThrough(mem, duration, et, id, v, fetches, stores, spare)
    && Faithful(m, Writing(mem, duration, et, id, v, fetches, stores, spare).log)
  }

  /**
   * From every coherent state there are replies of a faithful controller with which `VWrite` goes
   * through, exactly if the value can be encoded into the event's current bytes.
   */
  lemma WriteGoesThroughIff(blocks: set<Block>, m: Memory, mem: MemMap, duration: int, et: EventType, id: Uuid, v: Value, spare: seq<byte>)
    requires Partition(blocks) && Coherent(blocks, mem, m) && Laid(blocks, et)
    ensures Codecs.Encode(et, BufferOf(m, et), v).Done? <==>
              exists fetches, stores :: CanWrite(m, mem, duration, et, id, v, fetches, stores, spare)
  {
    if Codecs.Encode(et, BufferOf(m, et), v).Done? {
      var fetches, stores := WriteServed(blocks, m, mem, duration, et, id, v, spare);
    }
    if fetches, stores :| CanWrite(m, mem, duration, et, id, v, fetches, stores, spare) {
      WriteEffect(blocks, m, mem, duration, et, id, v, fetches, stores, spare);
    }
  }

  lemma WriteServed(blocks: set<Block>, m: Memory, mem: MemMap, duration: int, et: EventType, id: Uuid, v: Value, spare: seq<byte>)
    returns (fetches: seq<Turn>, stores: seq<Turn>)
    requires Partition(blocks) && Coherent(blocks, mem, m) && Laid(blocks, et)
    requires Codecs.Encode(et, BufferOf(m, et), v).Done?
    ensures CanWrite(m, mem, duration, et, id, v, fetches, stores, spare)
  {
    hide Coherent, Faithful, Partition, Codecs.Encode, CacheAfter, MemoryAfter, StepOf, BlockStart, Parts, ReadTo, WriteTo, AllSucceed,
      Writing, Slice, Codecs.Sane, WellBlocked;
    fetches := ReadingServed(blocks, m, mem, duration, et, id, Parts(et));
    ReadWhole(blocks, m, mem, duration, et, id, fetches);
    var r := ReadTo(mem, duration, et, id, fetches, Parts(et));
    var room := Codecs.Encode(et, r.body, v).value + spare;
    stores := WritingServed(blocks, m, CacheAfter(mem, r.log), duration, et, id, room, Parts(et));
    var log := WriteTo(CacheAfter(mem, r.log), duration, et, id, room, stores, Parts(et));
    FaithfulSplit(m, r.log, log);
    WritingIs(blocks, mem, duration, et, id, v, fetches, stores, spare);
    assert (r.log + log)[|r.log|..] == log;
  }

  lemma ReadWhole(blocks: set<Block>, m: Memory, mem: MemMap, duration: int, et: EventType, id: Uuid, fetches: seq<Turn>)
    requires Partition(blocks) && Coherent(blocks, mem, m) && Laid(blocks, et) && |fetches| == Parts(et)
    requires ServesReading(m, mem, duration, et, id, fetches, Parts(et))
    ensures var r := ReadTo(mem, duration, et, id, fetches, Parts(et));
            r.body == BufferOf(m, et) && MemoryAfter(m, r.log) == m
  {
    hide Coherent, Faithful, Partition, CacheAfter, MemoryAfter, StepOf, BlockStart, Parts, ReadTo, Slice;
    ReadToIsSlice(blocks, m, mem, duration, et, id, fetches, Parts(et));
  }

  /** After such a write there are replies with which the next read of the event succeeds. */
  lemma NextReadServed(blocks: set<Block>, m: Memory, mem: MemMap, duration: int, et: EventType, id: Uuid, v: Value,
                       fetches: seq<Turn>, stores: seq<Turn>, spare: seq<byte>, id': Uuid)
    returns (turns: seq<Turn>)
    requires Partition(blocks) && Coherent(blocks, mem, m) && Laid(blocks, et)
    requires CanWrite(m, mem, duration, et, id, v, fetches, stores, spare)
    ensures var log := Writing(mem, duration, et, id, v, fetches, stores, spare).log;
            |turns| == Parts(et) &&
            ServesReading(MemoryAfter(m, log), CacheAfter(mem, log), duration, et, id', turns, Parts(et))
  {
    var log := Writing(mem, duration, et, id, v, fetches, stores, spare).log;
    WriteEffect(blocks, m, mem, duration, et, id, v, fetches, stores, spare);
    turns := ReadingServed(blocks, MemoryAfter(m, log), CacheAfter(mem, log), duration, et, id', Parts(et));
  }
}
