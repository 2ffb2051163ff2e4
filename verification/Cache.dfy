/** What the chunks add up to, how fresh the cache is, and when it agrees with the controller. */
module Cache {
  import opened Bytes
  import opened Telegram
  import opened Runs
  import opened Engine
  import opened EngineSafety
  import opened Refinement
  import opened Commands

  // ---------------------------------------------------------- faithful exchanges

  /** The controller's memory after the successful exchanges of the log. */
  function MemoryAfter(m: Memory, log: seq<Exchange>): Memory {
    if log == [] then m
    else
      var x := log[|log| - 1];
      var before := MemoryAfter(m, log[..|log| - 1]);
      if x.result.err == None then Serve(before, RequestOf(x.cmd)).mem else before
  }

  /**
   * Every successful exchange is an atomic access: this is what the P300 exchange guarantees. Failed
   * exchanges leave the memory alone.
   */
  ghost predicate Faithful(m: Memory, log: seq<Exchange>) {
    forall i :: 0 <= i < |log| ==> FaithfulAt(m, log, i)
  }

  predicate FaithfulAt(m: Memory, log: seq<Exchange>, i: nat)
    requires i < |log|
  {
    log[i].result.err == None ==>
      Encodable(log[i].cmd) && log[i].result.body == Serve(MemoryAfter(m, log[..i]), RequestOf(log[i].cmd)).body
  }

  /** The log of commands and results the engine delivered for them. */
  function LogOf(cmds: seq<FsmCmd>, results: seq<FsmResult>): seq<Exchange>
    requires |results| <= |cmds|
  {
    seq(|results|, i requires 0 <= i < |results| => Exchange(cmds[i], 0, results[i]))
  }

  /** Atomic results form a faithful log. */
  lemma {:induction false} ResultsAreFaithful(m: Memory, cmds: seq<FsmCmd>)
    requires forall c :: c in cmds ==> Encodable(c)
    ensures |Results(m, cmds)| == |cmds|
    ensures Faithful(m, LogOf(cmds, Results(m, cmds))) && AllSucceed(LogOf(cmds, Results(m, cmds)))
    ensures MemoryAfter(m, LogOf(cmds, Results(m, cmds))) == MemAfter(m, cmds)
    decreases |cmds|
  {
    if cmds != [] {
      var n := |cmds| - 1;
      ResultsAreFaithful(m, cmds[..n]);
      var log, before := LogOf(cmds, Results(m, cmds)), LogOf(cmds[..n], Results(m, cmds[..n]));
      assert log[..n] == before;
      forall i | 0 <= i < |log|
        ensures FaithfulAt(m, log, i)
      {
        if i < n {
          assert FaithfulAt(m, before, i);
          assert log[..i] == before[..i];
        }
      }
    }
  }

  /** The log of exchanges is exactly what the engine accepted and delivered; the clock is the caller's own. */
  ghost predicate Carried(log: seq<Exchange>, actions: seq<Action>) {
    var accepted, delivered := Acceptances(actions), Deliveries(actions);
    && |log| == |accepted| == |delivered|
    && forall i :: 0 <= i < |log| ==> log[i].cmd == accepted[i] && log[i].result == delivered[i]
  }

  ghost predicate AllFit(log: seq<Exchange>) {
    forall i :: 0 <= i < |log| ==> Fits(log[i].cmd)
  }

  ghost predicate AllSucceed(log: seq<Exchange>) {
    forall i :: 0 <= i < |log| ==> log[i].result.err == None
  }

  /**
   * Whatever log the engine carries from a quiet world is faithful and successful, the memory after it
   * is the controller's, and the world is quiet again.
   */
  lemma EngineIsFaithful(w: World, moves: seq<Move>, log: seq<Exchange>)
    requires Quiet(w) && AllFit(log) && Carried(log, Run(Tick, w, moves).actions)
    ensures var o := Run(Tick, w, moves);
            o.stop == None && Quiet(o.next) &&
            Faithful(w.mem, log) && AllSucceed(log) && MemoryAfter(w.mem, log) == o.next.mem
  {
    hide Tick, MemoryAfter, Faithful, Fits, Simulates, Quiet;
    var o := Run(Tick, w, moves);
    var accepted := Acceptances(o.actions);
    QuietRefines(w, moves);
    forall c | c in accepted
      ensures Encodable(c)
    {
      FitsEncodable(c);
    }
    ResultsAreFaithful(w.mem, accepted);
    SameExchanges(w.mem, log, LogOf(accepted, Results(w.mem, accepted)));
  }

  /** Faithfulness and memory do not depend on the clock. */
  lemma {:induction false} SameMemory(m: Memory, x: seq<Exchange>, y: seq<Exchange>)
    requires |x| == |y| && forall i :: 0 <= i < |x| ==> x[i].cmd == y[i].cmd && x[i].result == y[i].result
    ensures MemoryAfter(m, x) == MemoryAfter(m, y)
  {
    if x != [] {
      SameMemory(m, x[..|x| - 1], y[..|y| - 1]);
    }
  }

  lemma SameExchanges(m: Memory, x: seq<Exchange>, y: seq<Exchange>)
    requires |x| == |y| && forall i :: 0 <= i < |x| ==> x[i].cmd == y[i].cmd && x[i].result == y[i].result
    requires Faithful(m, y) && AllSucceed(y)
    ensures Faithful(m, x) && AllSucceed(x) && MemoryAfter(m, x) == MemoryAfter(m, y)
  {
    SameMemory(m, x, y);
    forall i | 0 <= i < |x|
      ensures FaithfulAt(m, x, i)
    {
      assert FaithfulAt(m, y, i);
      SameMemory(m, x[..i], y[..i]);
    }
  }

  lemma FitsEncodable(cmd: FsmCmd)
    requires Fits(cmd)
    ensures Encodable(cmd)
  {
  }

  lemma {:induction false} MemoryAfterConcat(m: Memory, x: seq<Exchange>, y: seq<Exchange>)
    ensures MemoryAfter(m, x + y) == MemoryAfter(MemoryAfter(m, x), y)
    decreases |y|
  {
    if y == [] {
      assert x + y == x;
    } else {
      var n := |x + y| - 1;
      assert (x + y)[..n] == x + y[..|y| - 1];
      MemoryAfterConcat(m, x, y[..|y| - 1]);
    }
  }

  lemma FaithfulSplit(m: Memory, x: seq<Exchange>, y: seq<Exchange>)
    ensures Faithful(m, x + y) <==> Faithful(m, x) && Faithful(MemoryAfter(m, x), y)
  {
    var log := x + y;
    forall i | 0 <= i < |x|
      ensures FaithfulAt(m, log, i) <==> FaithfulAt(m, x, i)
    {
      assert log[..i] == x[..i];
    }
    forall i | 0 <= i < |y|
      ensures FaithfulAt(m, log, |x| + i) <==> FaithfulAt(MemoryAfter(m, x), y, i)
    {
      assert log[..|x| + i] == x + y[..i];
      MemoryAfterConcat(m, x, y[..i]);
    }
    assert Faithful(m, log) ==> Faithful(MemoryAfter(m, x), y) by {
      if Faithful(m, log) {
        forall i | 0 <= i < |y|
          ensures FaithfulAt(MemoryAfter(m, x), y, i)
        {
          assert FaithfulAt(m, log, |x| + i);
        }
      }
    }
    if Faithful(m, x) && Faithful(MemoryAfter(m, x), y) {
      forall i | 0 <= i < |log|
        ensures FaithfulAt(m, log, i)
      {
        if i >= |x| {
          assert FaithfulAt(MemoryAfter(m, x), y, i - |x|);
        }
      }
    }
  }

  // --------------------------------------------------- chunked reads are direct reads

  /** `err` of a command is nil iff every chunk succeeded. */
  lemma {:induction false} NoErrorIff(log: seq<Exchange>)
    ensures LastErr(log) == None <==> forall i :: 0 <= i < |log| ==> log[i].result.err == None
    decreases |log|
  {
    if log != [] {
      NoErrorIff(log[..|log| - 1]);
    }
  }

  /** The first k chunks of a successful read are the first 32 k bytes of the memory slice. */
  lemma {:induction false} ChunksReadSlice(m: Memory, cmd: FsmCmd, turn: Turn, k: nat)
    requires cmd.command in {P300_READ, KW_READ}
    requires k <= |ChunkLog(cmd, turn)| && Faithful(m, ChunkLog(cmd, turn))
    requires forall i :: 0 <= i < k ==> ChunkLog(cmd, turn)[i].result.err == None
    ensures Bodies(ChunkLog(cmd, turn)[..k]) == Slice(m, AddrOf(cmd), Min(CHUNK * k, cmd.resultLen))
    ensures MemoryAfter(m, ChunkLog(cmd, turn)[..k]) == m
    decreases k
  {
    hide ChunkLog, Serve, RequestOf, Slice, Bodies, MemoryAfter, AddrOf;
    var log := ChunkLog(cmd, turn);
    if k == 0 {
      NothingBack(m, AddrOf(cmd));
      assert log[..0] == [];
    } else {
      ChunksReadSlice(m, cmd, turn, k - 1);
      assert FaithfulAt(m, log, k - 1);
      OneMoreBack(m, log, k - 1);
      ChunkRequest(cmd, turn, k - 1);
      ReadIsServed(m, Plus(AddrOf(cmd), CHUNK * (k - 1)), Min(CHUNK, cmd.resultLen - CHUNK * (k - 1)));
      SliceSplit(m, AddrOf(cmd), CHUNK * (k - 1), Min(CHUNK, cmd.resultLen - CHUNK * (k - 1)));
    }
  }

  lemma NothingBack(m: Memory, a: Addr)
    ensures Bodies([]) == Slice(m, a, 0) && MemoryAfter(m, []) == m
  {
  }

  lemma OneMoreBack(m: Memory, log: seq<Exchange>, k: nat)
    requires k < |log|
    ensures Bodies(log[..k + 1]) == Bodies(log[..k]) + log[k].result.body
    ensures log[k].result.err == None ==> MemoryAfter(m, log[..k + 1]) == Serve(MemoryAfter(m, log[..k]), RequestOf(log[k].cmd)).mem
  {
    hide Serve, RequestOf;
    assert log[..k + 1][..k] == log[..k];
  }

  /** The request of chunk k. */
  lemma ChunkRequest(cmd: FsmCmd, turn: Turn, k: nat)
    requires cmd.command in {P300_READ, KW_READ} && k < |ChunkLog(cmd, turn)|
    ensures 0 <= CHUNK * k < cmd.resultLen
    ensures RequestOf(ChunkLog(cmd, turn)[k].cmd) ==
            ReadRequest(Addr2Bytes(Plus(AddrOf(cmd), CHUNK * k)), Min(CHUNK, cmd.resultLen - CHUNK * k))
  {
    hide Addr2Bytes, Bytes2Addr, Plus;
  }

  lemma ReadIsServed(m: Memory, a: Addr, n: byte)
    ensures Serve(m, ReadRequest(Addr2Bytes(a), n)) == Served(m, Slice(m, a, n))
  {
    AddressRoundTrip(a, Addr2Bytes(a));
    hide Slice, Addr2Bytes, Bytes2Addr;
  }

  /** On a cache miss a read of n bytes takes ceil(n / 32) sub-reads that partition the range in order. */
  lemma ChunksPartition(cmd: FsmCmd, turn: Turn)
    requires |ChunkLog(cmd, turn)| == ChunkCount(cmd.resultLen)
    ensures var log := ChunkLog(cmd, turn);
            && CHUNK * |log| - CHUNK < cmd.resultLen <= CHUNK * |log|
            && (forall k :: 0 <= k < |log| ==>
                  AddrOf(log[k].cmd) == Plus(AddrOf(cmd), CHUNK * k) &&
                  log[k].cmd.resultLen == (if k < |log| - 1 then CHUNK else cmd.resultLen - CHUNK * k) &&
                  log[k].cmd.resultLen > 0 &&
                  log[k].cmd == cmd.(address := log[k].cmd.address, resultLen := log[k].cmd.resultLen))
  {
    var log := ChunkLog(cmd, turn);
    forall k | 0 <= k < |log|
      ensures AddrOf(log[k].cmd) == Plus(AddrOf(cmd), CHUNK * k)
    {
      AddressRoundTrip(Plus(AddrOf(cmd), CHUNK * k), log[k].cmd.address);
    }
  }

  /**
   * A chunked read is a direct read: with the engine there for all chunks, the body is the
   * concatenation of the answers, the error is nil iff every chunk succeeded, and then the body is
   * the memory slice.
   */
  lemma ChunkedReadIsSlice(m: Memory, mem: MemMap, duration: int, cmd: FsmCmd, turn: Turn)
    requires cmd.command in {P300_READ, KW_READ} && !Hit(mem, duration, cmd, turn.now)
    requires AnsweredCount(turn.replies) >= ChunkCount(cmd.resultLen)
    requires Faithful(m, ChunkLog(cmd, turn))
    ensures var r := RunCmd(mem, duration, cmd, turn);
            && r.loss == None && r.log == ChunkLog(cmd, turn) && |r.results| == 1
            && r.results[0].body == Bodies(r.log)
            && (r.results[0].err == None <==> forall i :: 0 <= i < |r.log| ==> r.log[i].result.err == None)
            && (r.results[0].err == None ==> r.results[0].body == Slice(m, AddrOf(cmd), cmd.resultLen))
  {
    var log := ChunkLog(cmd, turn);
    NoErrorIff(log);
    if LastErr(log) == None {
      ChunksReadSlice(m, cmd, turn, |log|);
      assert log[..|log|] == log;
    }
  }

  /** Result n is that of command n, run on the cache its predecessors left. */
  ghost predicate ResultInPlace(mem: MemMap, duration: int, cmds: seq<FsmCmd>, turns: seq<Turn>, results: seq<FsmResult>, n: nat)
    requires |turns| == |cmds| && n < |cmds| && n < |results|
  {
    var before := RunCmds(mem, duration, cmds[..n], turns[..n]);
    before.loss == None && RunCmd(CacheAfter(mem, before.log), duration, cmds[n], turns[n]).results == [results[n]]
  }

  /** Absent a disconnect there is one result per command, each that of its own command. */
  lemma {:induction false} OneResultEach(mem: MemMap, duration: int, cmds: seq<FsmCmd>, turns: seq<Turn>)
    requires |turns| == |cmds| && RunCmds(mem, duration, cmds, turns).loss == None
    ensures var results := RunCmds(mem, duration, cmds, turns).results;
            |results| == |cmds| && forall n :: 0 <= n < |cmds| ==> ResultInPlace(mem, duration, cmds, turns, results, n)
    decreases |cmds|
  {
    if cmds != [] {
      var l := |cmds| - 1;
      var before := RunCmds(mem, duration, cmds[..l], turns[..l]);
      OneResultEach(mem, duration, cmds[..l], turns[..l]);
      hide RunCmd, CacheAfter, ResultInPlace;
      RunCmdHasOne(CacheAfter(mem, before.log), duration, cmds[l], turns[l]);
      var results := RunCmds(mem, duration, cmds, turns).results;
      forall n | 0 <= n < |cmds|
        ensures ResultInPlace(mem, duration, cmds, turns, results, n)
      {
        if n == l {
          LastInPlace(mem, duration, cmds, turns, results);
        } else {
          StaysInPlace(mem, duration, cmds, turns, before.results, results, n);
        }
      }
    }
  }

  lemma LastInPlace(mem: MemMap, duration: int, cmds: seq<FsmCmd>, turns: seq<Turn>, results: seq<FsmResult>)
    requires |turns| == |cmds| == |results| > 0
    requires RunCmds(mem, duration, cmds, turns).loss == None && RunCmds(mem, duration, cmds, turns).results == results
    ensures ResultInPlace(mem, duration, cmds, turns, results, |cmds| - 1)
  {
    var l := |cmds| - 1;
    var before := RunCmds(mem, duration, cmds[..l], turns[..l]);
    RunCmdHasOne(CacheAfter(mem, before.log), duration, cmds[l], turns[l]);
    hide RunCmd, CacheAfter;
  }

  lemma StaysInPlace(mem: MemMap, duration: int, cmds: seq<FsmCmd>, turns: seq<Turn>,
                     before: seq<FsmResult>, results: seq<FsmResult>, n: nat)
    requires |turns| == |cmds| && n < |cmds| - 1 && n < |before| && before <= results
    requires ResultInPlace(mem, duration, cmds[..|cmds| - 1], turns[..|cmds| - 1], before, n)
    ensures ResultInPlace(mem, duration, cmds, turns, results, n)
  {
    hide RunCmd, RunCmds, CacheAfter;
    var l := |cmds| - 1;
    assert cmds[..l][..n] == cmds[..n] && turns[..l][..n] == turns[..n];
  }

  lemma RunCmdHasOne(mem: MemMap, duration: int, cmd: FsmCmd, turn: Turn)
    ensures var r := RunCmd(mem, duration, cmd, turn); |r.results| == if r.loss == None then 1 else 0
  {
    hide ChunkLog, ChunkCount;
  }

  // --------------------------------------------------------- chunked writes are not

  /** The exchanges of a write when all its chunks succeed. */
  function WriteLog(cmd: FsmCmd): seq<Exchange> {
    seq(ChunkCount(cmd.resultLen),
      k requires 0 <= k < ChunkCount(cmd.resultLen) =>
        Exchange(ChunkCmd(cmd, k), 0, FsmResult(cmd.id, None, [|cmd.args| % 0x100])))
  }

  /** Every chunk of a write sends all the arguments to the chunk's address. */
  lemma WriteChunk(m: Memory, cmd: FsmCmd, k: nat)
    requires cmd.command in {P300_WRITE, KW_WRITE} && k < |WriteLog(cmd)|
    ensures MemoryAfter(m, WriteLog(cmd)[..k + 1]) ==
            Store(MemoryAfter(m, WriteLog(cmd)[..k]), Plus(AddrOf(cmd), CHUNK * k), cmd.args)
  {
    var log := WriteLog(cmd);
    assert log[..k + 1][..k] == log[..k];
    AddressRoundTrip(Plus(AddrOf(cmd), CHUNK * k), log[k].cmd.address);
  }

  /** From the second chunk on, the byte behind the arguments no longer depends on the old memory. */
  lemma {:induction false} WriteSpills(m: Memory, m': Memory, cmd: FsmCmd, k: nat)
    requires cmd.command in {P300_WRITE, KW_WRITE} && |cmd.args| == cmd.resultLen > CHUNK
    requires 2 <= k <= |WriteLog(cmd)|
    ensures var x := Plus(AddrOf(cmd), cmd.resultLen);
            MemoryAfter(m, WriteLog(cmd)[..k])[x] == MemoryAfter(m', WriteLog(cmd)[..k])[x]
    decreases k
  {
    hide MemoryAfter, WriteLog, Store, Plus, Offset, AddrOf;
    var x, a := Plus(AddrOf(cmd), cmd.resultLen), Plus(AddrOf(cmd), CHUNK * (k - 1));
    WriteChunk(m, cmd, k - 1);
    WriteChunk(m', cmd, k - 1);
    var before, before' := MemoryAfter(m, WriteLog(cmd)[..k - 1]), MemoryAfter(m', WriteLog(cmd)[..k - 1]);
    if k > 2 {
      WriteSpills(m, m', cmd, k - 1);
    } else {
      SecondChunkReaches(AddrOf(cmd), cmd.resultLen);
    }
    StoreAgrees(before, before', a, cmd.args, x);
  }

  lemma SecondChunkReaches(a: Addr, n: nat)
    requires CHUNK <= n < 0x1_0000
    ensures Offset(Plus(a, CHUNK), Plus(a, n)) == n - CHUNK
  {
  }

  lemma StoreAgrees(m: Memory, m': Memory, a: Addr, bs: seq<byte>, x: Addr)
    requires m[x] == m'[x] || Offset(a, x) < |bs|
    ensures Store(m, a, bs)[x] == Store(m', a, bs)[x]
  {
  }

  /**
   * A write behaves like one store of its arguments, on every memory, exactly if it is no longer than
   * one chunk; a longer one sends all the arguments again to addr + 32 and so on.
   */
  lemma WriteIsStoreIff(cmd: FsmCmd)
    requires cmd.command in {P300_WRITE, KW_WRITE} && |cmd.args| == cmd.resultLen
    ensures cmd.resultLen <= CHUNK <==>
              forall m: Memory :: MemoryAfter(m, WriteLog(cmd)) == Store(m, AddrOf(cmd), cmd.args)
  {
    var log, a := WriteLog(cmd), AddrOf(cmd);
    if cmd.resultLen <= CHUNK {
      forall m: Memory
        ensures MemoryAfter(m, log) == Store(m, a, cmd.args)
      {
        if cmd.resultLen == 0 {
          assert log == [] && Store(m, a, []) == m;
        } else {
          WriteChunk(m, cmd, 0);
          assert log[..1] == log && log[..0] == [];
          PlusZero(a);
        }
      }
    } else {
      var m0: Memory := seq(0x1_0000, i => 0);
      var m1: Memory := seq(0x1_0000, i => 1);
      var x := Plus(a, cmd.resultLen);
      WriteSpills(m0, m1, cmd, |log|);
      assert log[..|log|] == log;
      OffsetPlus(a, cmd.resultLen);
      assert Store(m0, a, cmd.args)[x] == 0 && Store(m1, a, cmd.args)[x] == 1;
    }
  }

  // ----------------------------------------------------------------------- losses

  /**
   * A lost engine never goes unnoticed: the last result is an error, alone if the engine is not there, and
   * behind those of the finished commands if the command channel is closed.
   */
  lemma LossIsReported(mem: MemMap, duration: int, cmds: seq<FsmCmd>, turns: seq<Turn>)
    requires |turns| == |cmds| && RunCmds(mem, duration, cmds, turns).loss.Some?
    ensures var b := RunCmds(mem, duration, cmds, turns);
            var ress := b.Returned();
            && ress != [] && ress[|ress| - 1].err.Some? && ress[|ress| - 1].body == []
            && (if b.loss == Some(Reply.CommandsClosed) then ress[..|ress| - 1] == b.results else |ress| == 1)
            && !b.loss.value.Answered?
  {
    hide RunCmd, CacheAfter;
    LossIsNoAnswer(mem, duration, cmds, turns);
  }

  lemma {:induction false} LossIsNoAnswer(mem: MemMap, duration: int, cmds: seq<FsmCmd>, turns: seq<Turn>)
    requires |turns| == |cmds| && RunCmds(mem, duration, cmds, turns).loss.Some?
    ensures !RunCmds(mem, duration, cmds, turns).loss.value.Answered?
    decreases |cmds|
  {
    if cmds != [] {
      hide RunCmd, CacheAfter;
      var n := |cmds| - 1;
      var b := RunCmds(mem, duration, cmds[..n], turns[..n]);
      if b.loss.Some? {
        LossIsNoAnswer(mem, duration, cmds[..n], turns[..n]);
      } else {
        CommandLossIsNoAnswer(CacheAfter(mem, b.log), duration, cmds[n], turns[n]);
      }
    }
  }

  lemma CommandLossIsNoAnswer(mem: MemMap, duration: int, cmd: FsmCmd, turn: Turn)
    requires RunCmd(mem, duration, cmd, turn).loss.Some?
    ensures !RunCmd(mem, duration, cmd, turn).loss.value.Answered?
  {
    hide Hit, ChunkCount, CachedBytes;
  }

  // ------------------------------------------------------------------- freshness

  /** The exchange left a byte for address a in the cache. */
  predicate Covers(x: Exchange, a: Addr) {
    Offset(AddrOf(x.cmd), a) < |Stored(x)|
  }

  function ByteFor(x: Exchange, a: Addr): byte
    requires Covers(x, a)
  {
    Stored(x)[Offset(AddrOf(x.cmd), a)]
  }

  lemma {:induction false} StoreBodyAt(m: MemMap, b: Addr, body: seq<byte>, t: nat, a: Addr)
    requires |body| < 0x1_0000
    ensures Offset(b, a) < |body| ==>
              a in StoreBody(m, b, body, t) && StoreBody(m, b, body, t)[a] == MemEntry(body[Offset(b, a)], t)
    ensures Offset(b, a) >= |body| ==>
              (a in StoreBody(m, b, body, t) <==> a in m) && (a in m ==> StoreBody(m, b, body, t)[a] == m[a])
    decreases |body|
  {
    if body != [] {
      var k := |body| - 1;
      StoreBodyAt(m, b, body[..k], t, a);
      OffsetPlus(b, k);
      PlusOffset(b, a);
    }
  }

  lemma RememberAt(m: MemMap, x: Exchange, a: Addr)
    ensures Covers(x, a) ==> a in Remember(m, x) && Remember(m, x)[a] == MemEntry(ByteFor(x, a), StampOf(x))
    ensures !Covers(x, a) ==> (a in Remember(m, x) <==> a in m) && (a in m ==> Remember(m, x)[a] == m[a])
  {
    StoreBodyAt(m, AddrOf(x.cmd), Stored(x), StampOf(x), a);
  }

  /** Exchange i is the latest one of the log that left a byte for address a. */
  predicate Latest(log: seq<Exchange>, a: Addr, i: nat) {
    i < |log| && Covers(log[i], a) && forall j :: i < j < |log| ==> !Covers(log[j], a)
  }

  lemma LatestStep(log: seq<Exchange>, a: Addr, i: nat)
    requires log != []
    ensures var n := |log| - 1;
            Latest(log, a, i) <==> if Covers(log[n], a) then i == n else Latest(log[..n], a, i)
  {
    hide Covers;
    var n := |log| - 1;
    assert forall j :: 0 <= j < n ==> log[..n][j] == log[j];
  }

  /** The cache entry for address a is the one exchange i of the log left. */
  predicate EntryFrom(m: MemMap, log: seq<Exchange>, a: Addr, i: nat)
    requires Latest(log, a, i)
  {
    a in m && m[a] == MemEntry(ByteFor(log[i], a), StampOf(log[i]))
  }

  ghost predicate LatestOnly(m: MemMap, log: seq<Exchange>, a: Addr) {
    && (a in m <==> exists i: nat :: Latest(log, a, i))
    && (forall i: nat :: Latest(log, a, i) ==> EntryFrom(m, log, a, i))
  }

  lemma LatestOnlyStep(m: MemMap, log: seq<Exchange>, a: Addr)
    requires log != [] && LatestOnly(m, log[..|log| - 1], a)
    ensures LatestOnly(Remember(m, log[|log| - 1]), log, a)
  {
    var n := |log| - 1;
    var m' := Remember(m, log[n]);
    RememberAt(m, log[n], a);
    hide Covers, Remember, ByteFor, StampOf, Latest;
    LatestStep(log, a, n);
    forall i: nat | Latest(log, a, i)
      ensures EntryFrom(m', log, a, i)
    {
      LatestStep(log, a, i);
      LatestInside(log, a, i);
      if !Covers(log[n], a) {
        assert EntryFrom(m, log[..n], a, i);
        LatestInside(log[..n], a, i);
      }
    }
    if !Covers(log[n], a) && a in m {
      var i: nat :| Latest(log[..n], a, i);
      LatestStep(log, a, i);
    }
    if !Covers(log[n], a) && a !in m {
      forall i: nat
        ensures !Latest(log, a, i)
      {
        LatestStep(log, a, i);
      }
    }
  }

  /** The cache holds for every address what the latest exchange that covered it left there, and nothing else. */
  lemma {:induction false} CacheIsLatest(log: seq<Exchange>, a: Addr)
    ensures LatestOnly(CacheAfter(map[], log), log, a)
    decreases |log|
  {
    if log != [] {
      hide LatestOnly, Remember;
      CacheIsLatest(log[..|log| - 1], a);
      LatestOnlyStep(CacheAfter(map[], log[..|log| - 1]), log, a);
    }
  }

  lemma LatestInside(log: seq<Exchange>, a: Addr, i: nat)
    requires Latest(log, a, i)
    ensures i < |log| && Covers(log[i], a)
  {
  }

  ghost predicate FromFreshRead(log: seq<Exchange>, a: Addr, b: byte, now: nat, duration: int) {
    exists i: nat :: Latest(log, a, i) && IsReadCmd(log[i].cmd.command) && log[i].result.err == None
                     && b == ByteFor(log[i], a) && now - log[i].now < duration
  }

  /**
   * Freshness, whatever the answers were: every byte of a cache hit was reported by a successful read
   * that began less than the cache duration ago, and no later successful exchange touched its address.
   * So the count byte a write leaves behind is never served.
   */
  lemma HitIsFresh(log: seq<Exchange>, duration: int, cmd: FsmCmd, now: nat)
    requires Hit(CacheAfter(map[], log), duration, cmd, now)
    ensures AddrOf(cmd) as int + cmd.resultLen < 0x1_0000
    ensures forall k :: 0 <= k < cmd.resultLen ==>
              FromFreshRead(log, Plus(AddrOf(cmd), k), CachedBytes(CacheAfter(map[], log), AddrOf(cmd), cmd.resultLen)[k], now, duration)
  {
    var m := CacheAfter(map[], log);
    forall k | 0 <= k < cmd.resultLen
      ensures FromFreshRead(log, Plus(AddrOf(cmd), k), CachedBytes(m, AddrOf(cmd), cmd.resultLen)[k], now, duration)
    {
      var a := Plus(AddrOf(cmd), k);
      assert ValidAt(m, a);
      CacheIsLatest(log, a);
      var i: nat :| Latest(log, a, i);
      assert EntryFrom(m, log, a, i);
      assert now - m[a].cacheTime < duration;
    }
  }

  // ------------------------------------------------------------------- read again

  /** Every chunk is answered with as many bytes as it asked for. */
  ghost predicate FullBodies(log: seq<Exchange>) {
    forall i :: 0 <= i < |log| ==> log[i].result.err == None && |log[i].result.body| == log[i].cmd.resultLen as int
  }

  /** The first n bytes of the range are cached with this time. */
  ghost predicate Holds(mem: MemMap, a: Addr, bytes: seq<byte>, time: nat) {
    forall i :: 0 <= i < |bytes| ==> Plus(a, i) in mem && mem[Plus(a, i)] == MemEntry(bytes[i], time)
  }

  /** A successful read of the bytes that follow extends what is held. */
  lemma HoldsMore(mem: MemMap, a: Addr, bytes: seq<byte>, x: Exchange)
    requires Holds(mem, a, bytes, StampOf(x)) && x.result.err == None
    requires AddrOf(x.cmd) == Plus(a, |bytes|) && |bytes| + |x.result.body| < 0x1_0000
    ensures Holds(Remember(mem, x), a, bytes + x.result.body, StampOf(x))
  {
    hide Remember, StampOf;
    var all := bytes + x.result.body;
    forall i | 0 <= i < |all|
      ensures Plus(a, i) in Remember(mem, x) && Remember(mem, x)[Plus(a, i)] == MemEntry(all[i], StampOf(x))
    {
      HeldAt(mem, a, bytes, x, i);
    }
  }

  lemma HeldAt(mem: MemMap, a: Addr, bytes: seq<byte>, x: Exchange, i: nat)
    requires Holds(mem, a, bytes, StampOf(x)) && x.result.err == None
    requires AddrOf(x.cmd) == Plus(a, |bytes|) && |bytes| + |x.result.body| < 0x1_0000 && i < |bytes + x.result.body|
    ensures Plus(a, i) in Remember(mem, x) && Remember(mem, x)[Plus(a, i)] == MemEntry((bytes + x.result.body)[i], StampOf(x))
  {
    hide Remember, StampOf, AddrOf;
    assert Stored(x) == x.result.body;
    RememberAt(mem, x, Plus(a, i));
    Distance(a, |bytes|, i, |x.result.body|);
    hide Plus, Offset;
  }

  lemma Distance(a: Addr, n: nat, i: nat, k: nat)
    requires n + k < 0x1_0000 && i < n + k
    ensures if i < n then Offset(Plus(a, n), Plus(a, i)) >= k else Offset(Plus(a, n), Plus(a, i)) == i - n
  {
  }

  lemma {:induction false} ChunksHeld(mem: MemMap, cmd: FsmCmd, turn: Turn, k: nat)
    requires IsReadCmd(cmd.command) && k <= |ChunkLog(cmd, turn)| && FullBodies(ChunkLog(cmd, turn))
    ensures var log := ChunkLog(cmd, turn);
            && |Bodies(log[..k])| == Min(CHUNK * k, cmd.resultLen)
            && Holds(CacheAfter(mem, log[..k]), AddrOf(cmd), Bodies(log[..k]), turn.now)
    decreases k
  {
    hide ChunkLog, Bodies, CacheAfter, Holds, Remember, AddrOf, StampOf;
    var log := ChunkLog(cmd, turn);
    if k == 0 {
      NothingHeld(mem, AddrOf(cmd), turn.now);
      assert log[..0] == [];
    } else {
      ChunksHeld(mem, cmd, turn, k - 1);
      ChunkIs(cmd, turn, k - 1);
      NextBody(mem, log, k - 1);
      HoldsMore(CacheAfter(mem, log[..k - 1]), AddrOf(cmd), Bodies(log[..k - 1]), log[k - 1]);
    }
  }

  lemma NothingHeld(mem: MemMap, a: Addr, time: nat)
    ensures Bodies([]) == [] && CacheAfter(mem, []) == mem && Holds(mem, a, [], time)
  {
  }

  lemma ChunkIs(cmd: FsmCmd, turn: Turn, k: nat)
    requires k < |ChunkLog(cmd, turn)|
    ensures CHUNK * k < cmd.resultLen
    ensures var x := ChunkLog(cmd, turn)[k];
            && AddrOf(x.cmd) == Plus(AddrOf(cmd), CHUNK * k) && x.cmd.resultLen == Min(CHUNK, cmd.resultLen - CHUNK * k)
            && x.cmd.command == cmd.command && (IsReadCmd(cmd.command) ==> StampOf(x) == turn.now)
  {
    hide Bytes2Addr, Addr2Bytes, Plus;
    AddressRoundTrip(Plus(AddrOf(cmd), CHUNK * k), cmd.address);
  }

  lemma NextBody(mem: MemMap, log: seq<Exchange>, k: nat)
    requires k < |log|
    ensures Bodies(log[..k + 1]) == Bodies(log[..k]) + log[k].result.body
    ensures CacheAfter(mem, log[..k + 1]) == Remember(CacheAfter(mem, log[..k]), log[k])
  {
    hide Remember;
    assert log[..k + 1][..k] == log[..k];
  }

  /**
   * What was just read is not read again: after a successful read, whatever the cache held before, the same
   * read within the cache duration is a hit with the same bytes.
   */
  lemma ReadAgainHits(mem: MemMap, duration: int, cmd: FsmCmd, turn: Turn, again: Turn)
    requires IsReadCmd(cmd.command) && cmd.resultLen > 0 && AddrOf(cmd) as int + cmd.resultLen < 0x1_0000
    requires !Hit(mem, duration, cmd, turn.now) && RunCmd(mem, duration, cmd, turn).loss == None && FullBodies(ChunkLog(cmd, turn))
    requires 0 < turn.now && duration > 0 && again.now - turn.now < duration
    ensures var r := RunCmd(mem, duration, cmd, turn);
            && r.results[0].err == None
            && RunCmd(CacheAfter(mem, r.log), duration, cmd, again) ==
               Batch([], [FsmResult(cmd.id, None, r.results[0].body)], None)
  {
    var log := ChunkLog(cmd, turn);
    ChunksHeld(mem, cmd, turn, |log|);
    assert log[..|log|] == log;
    NoErrorIff(log);
    ChunksSuffice(cmd.resultLen);
    HeldIsServed(CacheAfter(mem, log), duration, cmd, Bodies(log), turn.now, again);
    hide ChunkLog, Bodies, CacheAfter, LastErr, CachedBytes, Cached, Fresh, Holds;
  }

  /** What is held is served. */
  lemma HeldIsServed(mem: MemMap, duration: int, cmd: FsmCmd, bytes: seq<byte>, time: nat, again: Turn)
    requires IsReadCmd(cmd.command) && 0 < |bytes| == cmd.resultLen as int && AddrOf(cmd) as int + cmd.resultLen < 0x1_0000
    requires Holds(mem, AddrOf(cmd), bytes, time) && 0 < time && duration > 0 && again.now - time < duration
    ensures RunCmd(mem, duration, cmd, again) == Batch([], [FsmResult(cmd.id, None, bytes)], None)
  {
    hide ChunkLog, LossOf;
    assert Cached(mem, AddrOf(cmd), cmd.resultLen);
    assert CachedBytes(mem, AddrOf(cmd), cmd.resultLen) == bytes;
  }

  lemma ChunksSuffice(n: nat)
    ensures CHUNK * ChunkCount(n) >= n
  {
  }

  /** Results that carry their command's identifier are passed on under it, and so is a hit. */
  lemma ResultIsIdentified(mem: MemMap, duration: int, cmd: FsmCmd, turn: Turn)
    requires RunCmd(mem, duration, cmd, turn).loss == None
    requires forall i :: 0 <= i < |turn.replies| && turn.replies[i].Answered? ==> turn.replies[i].result.id == cmd.id
    ensures var r := RunCmd(mem, duration, cmd, turn);
            |r.results| == 1 && (cmd.resultLen > 0 ==> r.results[0].id == cmd.id)
  {
    hide Hit, Bodies, LastErr;
  }
}
