/** Cache coherence under block discipline, and reading, writing and reading back whole events. */
module BlockAccess {
  import opened Bytes
  import opened Telegram
  import opened Refinement
  import opened Commands
  import opened Cache

  /** A fixed block of addresses. */
  datatype Block = Block(addr: Addr, len: nat)

  /** Disjoint blocks of at most one chunk each. */
  ghost predicate Partition(blocks: set<Block>) {
    && (forall b :: b in blocks ==> 1 <= b.len <= CHUNK)
    && (forall b, c :: b in blocks && c in blocks && b != c ==> Apart(b.addr, b.len, c.addr, c.len))
  }

  function BlockOf(cmd: FsmCmd): Block {
    Block(AddrOf(cmd), cmd.resultLen)
  }

  predicate IsRead(cmd: FsmCmd) {
    cmd.command == P300_READ || cmd.command == KW_READ
  }

  predicate IsWrite(cmd: FsmCmd) {
    cmd.command == P300_WRITE || cmd.command == KW_WRITE
  }

  /** The command reads or writes one whole block. */
  predicate Whole(blocks: set<Block>, cmd: FsmCmd) {
    BlockOf(cmd) in blocks && (IsRead(cmd) || (IsWrite(cmd) && |cmd.args| == cmd.resultLen))
  }

  /** Either the first entry of the block is invalid, or all its valid entries agree with the controller. */
  ghost predicate BlockCoherent(mem: MemMap, m: Memory, b: Block) {
    !ValidAt(mem, b.addr) ||
    forall k :: 0 <= k < b.len && ValidAt(mem, Plus(b.addr, k)) ==> mem[Plus(b.addr, k)].data == m[Plus(b.addr, k)]
  }

  ghost predicate Coherent(blocks: set<Block>, mem: MemMap, m: Memory) {
    forall b :: b in blocks ==> BlockCoherent(mem, m, b)
  }

  lemma EmptyIsCoherent(blocks: set<Block>, m: Memory)
    ensures Coherent(blocks, map[], m)
  {
  }

  // -------------------------------------------------------------- one exchange

  /** What a faithful exchange over a whole block does to the memory, and what it answers. */
  lemma WholeExchange(blocks: set<Block>, m: Memory, x: Exchange)
    requires Partition(blocks) && Whole(blocks, x.cmd) && Faithful(m, [x])
    ensures MemoryAfter(m, [x]) == if x.result.err == None && IsWrite(x.cmd) then Store(m, AddrOf(x.cmd), x.cmd.args) else m
    ensures x.result.err == None && IsRead(x.cmd) ==> Stored(x) == x.result.body == Slice(m, AddrOf(x.cmd), x.cmd.resultLen)
    ensures x.result.err == None && IsWrite(x.cmd) ==> |Stored(x)| == 1
    ensures x.result.err.Some? ==> Stored(x) == []
    ensures x.cmd.resultLen <= CHUNK && (IsWrite(x.cmd) ==> StampOf(x) == 0)
  {
    assert FaithfulAt(m, [x], 0);
    assert [x][..0] == [];
    assert MemoryAfter(m, []) == m;
    ReadsAreNotWrites(x.cmd);
  }

  lemma ReadsAreNotWrites(cmd: FsmCmd)
    ensures IsWrite(cmd) ==> !IsReadCmd(cmd.command)
    ensures IsRead(cmd) ==> IsReadCmd(cmd.command)
  {
  }

  lemma OwnBlock(blocks: set<Block>, mem: MemMap, m: Memory, x: Exchange)
    requires Partition(blocks) && Whole(blocks, x.cmd) && Faithful(m, [x]) && BlockCoherent(mem, m, BlockOf(x.cmd))
    ensures BlockCoherent(Remember(mem, x), MemoryAfter(m, [x]), BlockOf(x.cmd))
  {
    hide MemoryAfter, Remember, Stored, Faithful;
    WholeExchange(blocks, m, x);
    var b := BlockOf(x.cmd);
    forall k | 0 <= k < b.len
      ensures Covers(x, Plus(b.addr, k)) <==> k < |Stored(x)|
    {
      OffsetPlus(b.addr, k);
    }
    PlusZero(b.addr);
    RememberAt(mem, x, b.addr);
    forall k | 0 <= k < b.len
      ensures IsRead(x.cmd) && x.result.err == None ==>
                Plus(b.addr, k) in Remember(mem, x) && Remember(mem, x)[Plus(b.addr, k)].data == m[Plus(b.addr, k)]
      ensures x.result.err.Some? ==>
                (ValidAt(Remember(mem, x), Plus(b.addr, k)) <==> ValidAt(mem, Plus(b.addr, k))) &&
                (ValidAt(mem, Plus(b.addr, k)) ==> Remember(mem, x)[Plus(b.addr, k)] == mem[Plus(b.addr, k)])
    {
      RememberAt(mem, x, Plus(b.addr, k));
      OffsetPlus(b.addr, k);
    }
  }

  lemma OtherBlock(blocks: set<Block>, mem: MemMap, m: Memory, x: Exchange, c: Block)
    requires Partition(blocks) && Whole(blocks, x.cmd) && Faithful(m, [x])
    requires c in blocks && c != BlockOf(x.cmd) && BlockCoherent(mem, m, c)
    ensures BlockCoherent(Remember(mem, x), MemoryAfter(m, [x]), c)
  {
    hide MemoryAfter, Remember, Stored, Faithful;
    WholeExchange(blocks, m, x);
    var b := BlockOf(x.cmd);
    forall k | 0 <= k < c.len
      ensures !Covers(x, Plus(c.addr, k))
      ensures MemoryAfter(m, [x])[Plus(c.addr, k)] == m[Plus(c.addr, k)]
      ensures Plus(c.addr, k) in Remember(mem, x) <==> Plus(c.addr, k) in mem
      ensures Plus(c.addr, k) in mem ==> Remember(mem, x)[Plus(c.addr, k)] == mem[Plus(c.addr, k)]
    {
      var j := Offset(b.addr, Plus(c.addr, k));
      PlusOffset(b.addr, Plus(c.addr, k));
      assert j >= b.len by {
        assert Apart(b.addr, b.len, c.addr, c.len);
      }
      RememberAt(mem, x, Plus(c.addr, k));
    }
    PlusZero(c.addr);
  }

  /** The block invariant survives every faithful whole-block exchange. */
  lemma ExchangeKeepsCoherence(blocks: set<Block>, mem: MemMap, m: Memory, x: Exchange)
    requires Partition(blocks) && Coherent(blocks, mem, m) && Whole(blocks, x.cmd) && Faithful(m, [x])
    ensures Coherent(blocks, Remember(mem, x), MemoryAfter(m, [x]))
  {
    hide Remember, MemoryAfter, BlockCoherent, Faithful;
    forall c | c in blocks
      ensures BlockCoherent(Remember(mem, x), MemoryAfter(m, [x]), c)
    {
      if c == BlockOf(x.cmd) {
        OwnBlock(blocks, mem, m, x);
      } else {
        OtherBlock(blocks, mem, m, x, c);
      }
    }
  }

  /** A successful write makes its block miss. */
  lemma WriteInvalidates(blocks: set<Block>, mem: MemMap, m: Memory, x: Exchange)
    requires Partition(blocks) && Whole(blocks, x.cmd) && Faithful(m, [x]) && IsWrite(x.cmd) && x.result.err == None
    ensures !ValidAt(Remember(mem, x), AddrOf(x.cmd))
  {
    hide Remember, MemoryAfter, Stored, Faithful;
    WholeExchange(blocks, m, x);
    PlusZero(AddrOf(x.cmd));
    OffsetPlus(AddrOf(x.cmd), 0);
    RememberAt(mem, x, AddrOf(x.cmd));
  }

  // --------------------------------------------------------------- one command

  /** A hit under the block invariant is the controller's current memory. */
  lemma HitIsMemory(blocks: set<Block>, mem: MemMap, m: Memory, duration: int, cmd: FsmCmd, now: nat)
    requires Coherent(blocks, mem, m) && BlockOf(cmd) in blocks && Hit(mem, duration, cmd, now)
    ensures CachedBytes(mem, AddrOf(cmd), cmd.resultLen) == Slice(m, AddrOf(cmd), cmd.resultLen)
  {
    var b := BlockOf(cmd);
    PlusZero(b.addr);
    assert ValidAt(mem, Plus(b.addr, 0));
    assert BlockCoherent(mem, m, b);
  }

  lemma OneChunk(n: nat)
    requires 1 <= n <= CHUNK
    ensures ChunkCount(n) == 1
  {
  }

  lemma FirstChunk(cmd: FsmCmd)
    requires 1 <= cmd.resultLen <= CHUNK && ChunkCount(cmd.resultLen) == 1
    ensures ChunkCmd(cmd, 0) == cmd
  {
    hide ChunkCount, Plus, Addr2Bytes, Bytes2Addr;
    PlusZero(AddrOf(cmd));
    AddressRoundTrip(0, cmd.address);
    var k: nat := 0;
    assert CHUNK * k == 0;
  }

  lemma SingleChunk(cmd: FsmCmd, turn: Turn)
    requires 1 <= cmd.resultLen <= CHUNK
    ensures |ChunkLog(cmd, turn)| <= 1 && ChunkCount(cmd.resultLen) == 1
    ensures |ChunkLog(cmd, turn)| == 1 ==> ChunkLog(cmd, turn)[0].cmd == cmd
  {
    OneChunk(cmd.resultLen);
    FirstChunk(cmd);
    hide ChunkCount, ChunkCmd, AnsweredCount;
  }

  lemma ResultOfOne(x: Exchange)
    ensures ChunkResult([x]) == x.result
  {
    assert [x][..0] == [];
    assert Bodies([]) == [] && LastErr([]) == None;
    assert Bodies([x]) == [] + x.result.body == x.result.body;
    assert LastErr([x]) == x.result.err;
  }

  /** A whole-block command is a hit or at most one exchange, over the command itself. */
  lemma WholeIsOneExchange(mem: MemMap, duration: int, cmd: FsmCmd, turn: Turn)
    requires 1 <= cmd.resultLen <= CHUNK
    ensures var r := RunCmd(mem, duration, cmd, turn);
            && |r.log| <= 1
            && (|r.log| == 1 ==> r.log[0].cmd == cmd && r.loss == None && r.results == [r.log[0].result])
            && (r.log == [] ==> Hit(mem, duration, cmd, turn.now) || FirstResult(r).err.Some?)
            && (Hit(mem, duration, cmd, turn.now) <==> r.log == [] && r.loss == None)
  {
    hide Hit, ChunkLog, ChunkCount, ChunkResult;
    SingleChunk(cmd, turn);
    var log := ChunkLog(cmd, turn);
    if |log| == 1 {
      assert log == [log[0]];
      ResultOfOne(log[0]);
    }
  }

  /** What one whole-block command leaves behind. */
  ghost predicate CmdDone(blocks: set<Block>, mem: MemMap, m: Memory, cmd: FsmCmd, r: Batch) {
    var m' := MemoryAfter(m, r.log);
    && Coherent(blocks, CacheAfter(mem, r.log), m')
    && (IsRead(cmd) ==> m' == m)
    && (r.loss == None ==> |r.results| == 1)
    && (FirstResult(r).err == None && IsRead(cmd) ==> FirstResult(r).body == Slice(m, AddrOf(cmd), cmd.resultLen))
    && (FirstResult(r).err == None && IsWrite(cmd) ==>
          m' == Store(m, AddrOf(cmd), cmd.args) && !ValidAt(CacheAfter(mem, r.log), AddrOf(cmd)))
    && (FirstResult(r).err.Some? ==> m' == m)
  }

  /**
   * Whole-block commands through the cache refine the controller's memory: the invariant is kept, a
   * read without error - hit or miss - is the current slice, and a write without error is a store
   * after which the block is not served from the cache.
   */
  lemma CommandRefinesMemory(blocks: set<Block>, mem: MemMap, m: Memory, duration: int, cmd: FsmCmd, turn: Turn)
    requires Partition(blocks) && Coherent(blocks, mem, m) && Whole(blocks, cmd)
    requires Faithful(m, RunCmd(mem, duration, cmd, turn).log)
    ensures CmdDone(blocks, mem, m, cmd, RunCmd(mem, duration, cmd, turn))
  {
    hide Coherent, Remember, Faithful, Hit, Cached;
    var r := RunCmd(mem, duration, cmd, turn);
    WholeIsOneExchange(mem, duration, cmd, turn);
    ReadsAreNotWrites(cmd);
    assert MemoryAfter(m, []) == m && CacheAfter(mem, []) == mem;
    if |r.log| == 1 {
      hide RunCmd;
      var x := r.log[0];
      assert r.log == [x] && [x][..0] == [];
      ExchangeKeepsCoherence(blocks, mem, m, x);
      WholeExchange(blocks, m, x);
      assert CacheAfter(mem, r.log) == Remember(mem, x);
      if IsWrite(cmd) && x.result.err == None {
        WriteInvalidates(blocks, mem, m, x);
      }
    } else if Hit(mem, duration, cmd, turn.now) {
      HitIsMemory(blocks, mem, m, duration, cmd, turn.now);
      HitIsRead(mem, duration, cmd, turn.now);
    } else {
      hide RunCmd;
    }
  }

  lemma HitIsRead(mem: MemMap, duration: int, cmd: FsmCmd, now: nat)
    requires Hit(mem, duration, cmd, now)
    ensures IsReadCmd(cmd.command)
  {
  }

  /** In every state reached by whole-block commands the cache is coherent, so every hit is current. */
  lemma {:induction false} CommandsKeepCoherence(
    blocks: set<Block>, m: Memory, mem: MemMap, duration: int, cmds: seq<FsmCmd>, turns: seq<Turn>)
    requires Partition(blocks) && Coherent(blocks, mem, m) && |turns| == |cmds|
    requires forall c :: c in cmds ==> Whole(blocks, c)
    requires Faithful(m, RunCmds(mem, duration, cmds, turns).log)
    ensures var log := RunCmds(mem, duration, cmds, turns).log;
            Coherent(blocks, CacheAfter(mem, log), MemoryAfter(m, log))
    decreases |cmds|
  {
    hide Coherent, Faithful, RunCmd, CmdDone, Partition, Whole;
    if cmds == [] {
      assert MemoryAfter(m, []) == m && CacheAfter(mem, []) == mem;
    } else {
      hide CacheAfter, MemoryAfter;
      var n := |cmds| - 1;
      var b := RunCmds(mem, duration, cmds[..n], turns[..n]);
      if b.loss.Some? {
        CommandsKeepCoherence(blocks, m, mem, duration, cmds[..n], turns[..n]);
      } else {
        var r := RunCmd(CacheAfter(mem, b.log), duration, cmds[n], turns[n]);
        FaithfulSplit(m, b.log, r.log);
        CommandsKeepCoherence(blocks, m, mem, duration, cmds[..n], turns[..n]);
        CommandRefinesMemory(blocks, CacheAfter(mem, b.log), MemoryAfter(m, b.log), duration, cmds[n], turns[n]);
        DoneIsCoherent(blocks, CacheAfter(mem, b.log), MemoryAfter(m, b.log), cmds[n], r);
        CacheAfterConcat(mem, b.log, r.log);
        MemoryAfterConcat(m, b.log, r.log);
      }
    }
  }

  lemma DoneIsCoherent(blocks: set<Block>, mem: MemMap, m: Memory, cmd: FsmCmd, r: Batch)
    requires CmdDone(blocks, mem, m, cmd, r)
    ensures Coherent(blocks, CacheAfter(mem, r.log), MemoryAfter(m, r.log))
  {
  }
}
