/** The command layer: reads and writes in chunks of 32 bytes, with a cache of the memory seen. */
module Commands {
  import opened Bytes
  import opened Telegram
  import opened Bits
  import opened Events
  import opened Refinement
  import Codecs

  /** A cached byte; time 0 is Go's zero time and marks an entry that must not be served. */
  datatype MemEntry = MemEntry(data: byte, cacheTime: nat)
  type MemMap = map<Addr, MemEntry>

  /** What becomes of one command on its way to the engine and back. */
  datatype Reply = NotConnected | ResultsClosed | CommandsClosed | Answered(result: FsmResult)

  /** What the surroundings provide while one command is processed: the clock and the replies to its chunks. */
  datatype Turn = Turn(now: nat, replies: seq<Reply>)

  /** One completed exchange with the engine; `now` is the time at which its command was begun. */
  datatype Exchange = Exchange(cmd: FsmCmd, now: nat, result: FsmResult)

  const CHUNK := 32

  // ------------------------------------------------------------------- the cache

  function AddrOf(cmd: FsmCmd): Addr {
    Bytes2Addr(cmd.address)
  }

  predicate ValidAt(m: MemMap, a: Addr) {
    a in m && m[a].cacheTime != 0
  }

  /** All n bytes are there and valid; ranges that touch or pass the end of the address space never are. */
  predicate Cached(m: MemMap, a: Addr, n: nat) {
    0 < n && a as int + n < 0x1_0000 && forall k :: 0 <= k < n ==> ValidAt(m, Plus(a, k))
  }

  function CachedBytes(m: MemMap, a: Addr, n: nat): seq<byte>
    requires Cached(m, a, n)
  {
    seq(n, k requires 0 <= k < n => m[Plus(a, k)].data)
  }

  predicate Fresh(m: MemMap, a: Addr, n: nat, now: nat, duration: int)
    requires Cached(m, a, n)
  {
    forall k :: 0 <= k < n ==> now - m[Plus(a, k)].cacheTime < duration
  }

  predicate Hit(m: MemMap, duration: int, cmd: FsmCmd, now: nat) {
    && IsReadCmd(cmd.command) && duration > 0 && cmd.resultLen > 0
    && Cached(m, AddrOf(cmd), cmd.resultLen) && Fresh(m, AddrOf(cmd), cmd.resultLen, now, duration)
  }

  function StoreBody(m: MemMap, a: Addr, body: seq<byte>, time: nat): MemMap {
    if body == [] then m
    else
      var k := |body| - 1;
      StoreBody(m, a, body[..k], time)[Plus(a, k) := MemEntry(body[k], time)]
  }

  /** The bytes a result stores: the loop counts in `uint16`. */
  function Stored(x: Exchange): seq<byte> {
    if x.result.err == None then x.result.body[..|x.result.body| % 0x1_0000] else []
  }

  function StampOf(x: Exchange): nat {
    if IsReadCmd(x.cmd.command) then x.now else 0
  }

  function Remember(m: MemMap, x: Exchange): MemMap {
    StoreBody(m, AddrOf(x.cmd), Stored(x), StampOf(x))
  }

  function CacheAfter(m: MemMap, log: seq<Exchange>): MemMap {
    if log == [] then m else Remember(CacheAfter(m, log[..|log| - 1]), log[|log| - 1])
  }

  // ------------------------------------------------------------------ the chunks

  function ChunkCount(n: nat): nat {
    (n + CHUNK - 1) / CHUNK
  }

  function ChunkCmd(cmd: FsmCmd, k: nat): FsmCmd
    requires k < ChunkCount(cmd.resultLen)
  {
    cmd.(address := Addr2Bytes(Plus(AddrOf(cmd), CHUNK * k)), resultLen := Min(CHUNK, cmd.resultLen - CHUNK * k))
  }

  /** How many chunks are answered before one is not. */
  function AnsweredCount(replies: seq<Reply>): (n: nat)
    ensures n <= |replies|
    ensures forall k :: 0 <= k < n ==> replies[k].Answered?
    ensures n < |replies| ==> !replies[n].Answered?
  {
    if replies == [] || !replies[0].Answered? then 0 else 1 + AnsweredCount(replies[1..])
  }

  function ChunkLog(cmd: FsmCmd, turn: Turn): seq<Exchange> {
    seq(Min(ChunkCount(cmd.resultLen), AnsweredCount(turn.replies)),
      k requires 0 <= k < ChunkCount(cmd.resultLen) && k < AnsweredCount(turn.replies) =>
        Exchange(ChunkCmd(cmd, k), turn.now, turn.replies[k].result))
  }

  function Bodies(log: seq<Exchange>): seq<byte> {
    if log == [] then [] else Bodies(log[..|log| - 1]) + log[|log| - 1].result.body
  }

  function LastErr(log: seq<Exchange>): Option<Error> {
    if log == [] then None
    else if log[|log| - 1].result.err.Some? then log[|log| - 1].result.err
    else LastErr(log[..|log| - 1])
  }

  function ChunkResult(log: seq<Exchange>): FsmResult {
    FsmResult(if log == [] then 0 else log[|log| - 1].result.id, LastErr(log), Bodies(log))
  }

  // ------------------------------------------------------------- runs of commands

  datatype Batch = Batch(log: seq<Exchange>, results: seq<FsmResult>, loss: Option<Reply>) {
    /** What the caller gets: a lost engine replaces all results, a closed command channel is appended. */
    function Returned(): seq<FsmResult> {
      match loss
      case None => results
      case Some(CommandsClosed) => results + [FsmResult(0, Some(ClosedChannel), [])]
      case Some(_) => [FsmResult(0, Some(Eof), [])]
    }
  }

  /** Why the exchanges of a command came to an early end, if they did. */
  function LossOf(cmd: FsmCmd, turn: Turn): Option<Reply> {
    var n := |ChunkLog(cmd, turn)|;
    if n == ChunkCount(cmd.resultLen) then None
    else Some(if n < |turn.replies| then turn.replies[n] else NotConnected)
  }

  function RunCmd(m: MemMap, duration: int, cmd: FsmCmd, turn: Turn): Batch {
    if Hit(m, duration, cmd, turn.now) then
      Batch([], [FsmResult(cmd.id, None, CachedBytes(m, AddrOf(cmd), cmd.resultLen))], None)
    else
      var log := ChunkLog(cmd, turn);
      var loss := LossOf(cmd, turn);
      Batch(log, if loss == None then [ChunkResult(log)] else [], loss)
  }

  function RunCmds(m: MemMap, duration: int, cmds: seq<FsmCmd>, turns: seq<Turn>): Batch
    requires |turns| == |cmds|
  {
    if cmds == [] then Batch([], [], None)
    else
      var n := |cmds| - 1;
      var b := RunCmds(m, duration, cmds[..n], turns[..n]);
      if b.loss.Some? then b
      else
        var r := RunCmd(CacheAfter(m, b.log), duration, cmds[n], turns[n]);
        Batch(b.log + r.log, b.results + r.results, r.loss)
  }

  /** `RawCmd`: the first result, which always exists. */
  function FirstResult(b: Batch): (r: FsmResult)
    requires b.loss == None ==> |b.results| == 1
  {
    match b.loss
    case None => b.results[0]
    case Some(CommandsClosed) => if b.results == [] then FsmResult(0, Some(ClosedChannel), []) else b.results[0]
    case Some(_) => FsmResult(0, Some(Eof), [])
  }

  // ------------------------------------------------------------------ event types

  /** The length of the blocks in which an event is read and written. */
  function StepOf(et: EventType): byte {
    if et.blockFactor > 0 then et.blockLength / et.blockFactor % 0x100 else et.blockLength
  }

  function Parts(et: EventType): nat {
    if et.blockFactor > 0 then et.blockFactor else 1
  }

  /** Where block j begins in the buffer of the event. */
  function BlockStart(et: EventType, j: nat): nat {
    if j == 0 then 0 else BlockStart(et, j - 1) + StepOf(et)
  }

  /** The loop counter at the start of round j: it counts in `uint8`. */
  function Counter(et: EventType, j: nat): byte {
    BlockStart(et, j) % 0x100
  }

  /** The loop over the blocks leaves after n rounds. */
  ghost predicate Exits(et: EventType, n: nat) {
    Counter(et, n) >= et.blockLength && forall k: nat :: k < n ==> Counter(et, k) < et.blockLength
  }

  /** Blocks of equal, positive length that make up the event. */
  predicate WellBlocked(et: EventType) {
    et.blockLength > 0 && StepOf(et) > 0 && BlockStart(et, Parts(et)) == et.blockLength
  }

  lemma {:induction false} BlockStartIs(et: EventType, j: nat)
    ensures BlockStart(et, j) == j * StepOf(et)
  {
    if j > 0 {
      BlockStartIs(et, j - 1);
    }
  }

  /** The blocks are fine exactly if the block factor is zero or divides the block length. */
  lemma WellBlockedIff(et: EventType)
    ensures WellBlocked(et) <==>
              et.blockLength > 0 &&
              (et.blockFactor == 0 || (et.blockFactor <= et.blockLength && et.blockLength % et.blockFactor == 0))
  {
    BlockStartIs(et, Parts(et));
    if et.blockFactor > 0 {
      DividesIff(et.blockLength, et.blockFactor);
    }
    hide BlockStart;
  }

  lemma DividesIff(l: byte, f: byte)
    requires f > 0
    ensures l / f <= l && l / f % 0x100 == l / f
    ensures f * (l / f) == l <==> l % f == 0
    ensures l > 0 ==> (l / f > 0 <==> f <= l)
  {
    var q := l / f;
    DivDef(l, f);
    if q > l {
      MulMonotone(1, f, q);
    }
    if 0 < l < f {
      ModUnique(0, f, l, l);
    }
  }

  /** Within well-formed blocks the counter does not wrap, and the loop makes one round per block. */
  lemma BlocksExit(et: EventType)
    requires WellBlocked(et)
    ensures forall k: nat :: k <= Parts(et) ==> Counter(et, k) == BlockStart(et, k)
    ensures Exits(et, Parts(et))
  {
    forall k: nat | k <= Parts(et)
      ensures Counter(et, k) == BlockStart(et, k) && (k < Parts(et) ==> BlockStart(et, k) < et.blockLength)
    {
      if k < Parts(et) {
        BlockStartGrows(et, k, Parts(et));
      }
    }
  }

  lemma {:induction false} BlockStartGrows(et: EventType, i: nat, j: nat)
    requires i < j
    ensures BlockStart(et, i) + StepOf(et) <= BlockStart(et, j)
    decreases j
  {
    if i < j - 1 {
      BlockStartGrows(et, i, j - 1);
    }
  }

  function BlockAddr(et: EventType, j: nat): Addr {
    Plus(et.address, BlockStart(et, j))
  }

  function ReadBlock(et: EventType, id: Uuid, j: nat): FsmCmd {
    FsmCmd(id, et.fcRead, Addr2Bytes(Plus(et.address, Counter(et, j))), [], StepOf(et))
  }

  /** The bounds of the slice in round j are in order and inside the buffer's capacity. */
  predicate Sliceable(et: EventType, b: seq<byte>, j: nat) {
    Counter(et, j) <= Counter(et, j + 1) <= |b|
  }

  function WriteBlock(et: EventType, id: Uuid, b: seq<byte>, j: nat): FsmCmd {
    FsmCmd(id, et.fcWrite, Addr2Bytes(Plus(et.address, Counter(et, j))),
           if Sliceable(et, b, j) then b[Counter(et, j)..Counter(et, j + 1)] else [], StepOf(et))
  }

  datatype Reading = Reading(log: seq<Exchange>, body: seq<byte>, err: Option<Error>)

  /** The first n blocks are read until one fails. */
  function ReadTo(m: MemMap, duration: int, et: EventType, id: Uuid, turns: seq<Turn>, n: nat): Reading
    requires n <= |turns|
  {
    if n == 0 then Reading([], [], None)
    else
      var r := ReadTo(m, duration, et, id, turns, n - 1);
      if r.err.Some? then r
      else
        var b := RunCmd(CacheAfter(m, r.log), duration, ReadBlock(et, id, n - 1), turns[n - 1]);
        var x := FirstResult(b);
        Reading(r.log + b.log, r.body + x.body, x.err)
  }

  /** The exchanges of writing the first n blocks; errors are not looked at. */
  function WriteTo(m: MemMap, duration: int, et: EventType, id: Uuid, b: seq<byte>, turns: seq<Turn>, n: nat): seq<Exchange>
    requires n <= |turns|
  {
    if n == 0 then []
    else
      var log := WriteTo(m, duration, et, id, b, turns, n - 1);
      log + RunCmd(CacheAfter(m, log), duration, WriteBlock(et, id, b, n - 1), turns[n - 1]).log
  }

  /** `OutOfRange` is Go's panic on an index or slice out of range. */
  datatype Failure = NotFound | NotReadable | NotWritable | Failed(error: Error) | Uncodable | OutOfRange

  lemma {:induction false} CacheAfterConcat(m: MemMap, x: seq<Exchange>, y: seq<Exchange>)
    ensures CacheAfter(m, x + y) == CacheAfter(CacheAfter(m, x), y)
  {
    if y == [] {
      assert x + y == x;
    } else {
      var n := |x + y| - 1;
      assert (x + y)[..n] == x + y[..|y| - 1];
      CacheAfterConcat(m, x, y[..|y| - 1]);
    }
  }

  class Device {
    var mem: MemMap
    var cacheDuration: int
    const eventTypes: map<string, EventType>
    ghost var log: seq<Exchange>

    constructor (duration: int, eventTypes: map<string, EventType>)
      ensures mem == map[] && cacheDuration == duration && this.eventTypes == eventTypes && log == []
    {
      mem, cacheDuration, log := map[], duration, [];
      this.eventTypes := eventTypes;
    }

    method GetCache(addr: Addr, len: Addr) returns (c: Option<seq<byte>>, oldest: nat)
      ensures c.Some? <==> Cached(mem, addr, len)
      ensures c.Some? ==> c.value == CachedBytes(mem, addr, len)
      ensures c.Some? ==> forall k :: 0 <= k < len ==> oldest <= mem[Plus(addr, k)].cacheTime
      ensures c.Some? ==> exists k :: 0 <= k < len && oldest == mem[Plus(addr, k)].cacheTime
    {
      var end := Plus(addr, len);
      var a: nat := addr;
      var bytes: seq<byte> := [];
      oldest := 0;
      while a < end
        invariant addr <= a && (a <= end || a == addr) && |bytes| == a - addr
        invariant forall k :: 0 <= k < a - addr ==>
                    ValidAt(mem, Plus(addr, k)) && bytes[k] == mem[Plus(addr, k)].data &&
                    oldest <= mem[Plus(addr, k)].cacheTime
        invariant a > addr ==> exists k :: 0 <= k < a - addr && oldest == mem[Plus(addr, k)].cacheTime
        invariant a == addr ==> oldest == 0
      {
        assert a == Plus(addr, a - addr);
        if a !in mem || mem[a].cacheTime == 0 {
          assert !ValidAt(mem, Plus(addr, a - addr));
          return None, oldest;
        }
        if oldest == 0 || mem[a].cacheTime < oldest {
          oldest := mem[a].cacheTime;
        }
        bytes := bytes + [mem[a].data];
        a := a + 1;
      }
      c := if bytes == [] then None else Some(bytes);
    }

    /** Sends the chunks of one command until all are answered or the engine is lost. */
    method Exchanges(cmd: FsmCmd, turn: Turn) returns (result: FsmResult, loss: Option<Reply>)
      modifies this`mem, this`log
      ensures log == old(log) + ChunkLog(cmd, turn)
      ensures mem == CacheAfter(old(mem), ChunkLog(cmd, turn))
      ensures loss == LossOf(cmd, turn)
      ensures loss == None ==> result == ChunkResult(ChunkLog(cmd, turn))
    {
      hide CacheAfter, ChunkResult, ChunkLog, ChunkCount, Remember, Plus, Addr2Bytes, AddrOf;
      ghost var done := ChunkLog(cmd, turn);
      LogStart(old(mem), done);
      PlusZero(AddrOf(cmd));
      var err, body, addr, i := None, [], AddrOf(cmd), 0;
      var remainder: int := cmd.resultLen;
      result := FsmResult(0, None, []);
      while remainder > 0
        invariant 0 <= i <= |done| && remainder == cmd.resultLen - CHUNK * i
        invariant addr == Plus(AddrOf(cmd), CHUNK * i)
        invariant log == old(log) + done[..i] && mem == CacheAfter(old(mem), done[..i])
        invariant FsmResult(result.id, err, body) == ChunkResult(done[..i])
      {
        ChunkAt(cmd, turn, i);
        var chunk := cmd.(address := Addr2Bytes(addr), resultLen := if remainder > CHUNK then CHUNK else remainder);
        if i >= |turn.replies| {
          return result, Some(NotConnected);
        }
        if !turn.replies[i].Answered? {
          return result, Some(turn.replies[i]);
        }
        LogStep(old(mem), done, i);
        result := turn.replies[i].result;
        Keep(Exchange(chunk, turn.now, result));
        if result.err.Some? {
          err := result.err;
        }
        body := body + result.body;
        PlusPlus(AddrOf(cmd), CHUNK * i, CHUNK);
        addr := Plus(addr, CHUNK);
        i := i + 1;
        remainder := remainder - CHUNK;
      }
      ChunksEnd(cmd, turn, i);
      result := FsmResult(result.id, err, body);
      loss := None;
    }

    /** A successful answer goes into the cache; only that of a read is stamped with a time. */
    method Keep(x: Exchange)
      modifies this`mem, this`log
      ensures mem == Remember(old(mem), x) && log == old(log) + [x]
    {
      if x.result.err == None {
        var t := if IsReadCmd(x.cmd.command) then x.now else 0;
        var body := x.result.body;
        for i := 0 to |body| % 0x1_0000
          invariant mem == StoreBody(old(mem), AddrOf(x.cmd), body[..i], t) && log == old(log)
        {
          assert body[..i + 1][..i] == body[..i];
          mem := mem[Plus(AddrOf(x.cmd), i) := MemEntry(body[i], t)];
        }
      }
      log := log + [x];
    }

    /** One command: a cache hit, or its exchanges. */
    method Process(cmd: FsmCmd, turn: Turn) returns (result: FsmResult, loss: Option<Reply>)
      modifies this`mem, this`log
      ensures var r := RunCmd(old(mem), cacheDuration, cmd, turn);
              && log == old(log) + r.log && mem == CacheAfter(old(mem), r.log)
              && loss == r.loss && (loss == None ==> r.results == [result])
    {
      hide ChunkLog, ChunkCount, ChunkResult, Cached, CachedBytes, LossOf;
      var now := turn.now;
      if IsReadCmd(cmd.command) && cacheDuration > 0 && cmd.resultLen > 0 {
        var c, oldest := GetCache(AddrOf(cmd), cmd.resultLen);
        if c.Some? && now - oldest < cacheDuration {
          assert Fresh(mem, AddrOf(cmd), cmd.resultLen, now, cacheDuration);
          return FsmResult(cmd.id, None, c.value), None;
        }
      }
      assert !Hit(mem, cacheDuration, cmd, now);
      result, loss := Exchanges(cmd, turn);
    }

    method RawCmds(cmds: seq<FsmCmd>, turns: seq<Turn>) returns (ress: seq<FsmResult>)
      requires |turns| == |cmds|
      modifies this`mem, this`log
      ensures var b := RunCmds(old(mem), cacheDuration, cmds, turns);
              ress == b.Returned() && log == old(log) + b.log && mem == CacheAfter(old(mem), b.log)
    {
      hide RunCmd, RunCmds, CacheAfter;
      ress := [];
      ghost var b := Batch([], [], None);
      NothingRun(mem, cacheDuration);
      for n := 0 to |cmds|
        invariant b == RunCmds(old(mem), cacheDuration, cmds[..n], turns[..n]) && b.loss == None && b.results == ress
        invariant log == old(log) + b.log && mem == CacheAfter(old(mem), b.log)
      {
        ghost var r := RunCmd(mem, cacheDuration, cmds[n], turns[n]);
        CacheAfterConcat(old(mem), b.log, r.log);
        var result, loss := Process(cmds[n], turns[n]);
        if loss.Some? {
          LostReturns(old(mem), cacheDuration, cmds, turns, n);
          if loss.value.CommandsClosed? {
            ress := ress + [FsmResult(0, Some(ClosedChannel), [])];
          } else {
            ress := [FsmResult(0, Some(Eof), [])];
          }
          return;
        }
        RunCmdsNext(old(mem), cacheDuration, cmds, turns, n);
        ress := ress + [result];
        b := Batch(b.log + r.log, b.results + r.results, r.loss);
      }
      assert cmds[..|cmds|] == cmds && turns[..|cmds|] == turns;
    }
  
    method RawCmd(cmd: FsmCmd, turn: Turn) returns (res: FsmResult)
      modifies this`mem, this`log
      ensures var b := RunCmd(old(mem), cacheDuration, cmd, turn);
              res == FirstResult(b) && log == old(log) + b.log && mem == CacheAfter(old(mem), b.log)
    {
      OneCommand(mem, cacheDuration, cmd, turn);
      var ress := RawCmds([cmd], [turn]);
      res := ress[0];
    }

    method ReadBlocks(et: EventType, id: Uuid, turns: seq<Turn>) returns (b: seq<byte>, err: Option<Error>)
      requires ReadsFor(mem, cacheDuration, et, id, turns)
      modifies this`mem, this`log
      ensures var r := ReadTo(old(mem), cacheDuration, et, id, turns, |turns|);
              b == r.body && err == r.err && log == old(log) + r.log && mem == CacheAfter(old(mem), r.log)
    {
      hide CacheAfter, RunCmd, FirstResult, ReadTo, StepOf, Plus, Addr2Bytes, BlockStart;
      var step := StepOf(et);
      b, err := [], None;
      NothingRead(mem, cacheDuration, et, id, turns);
      var i: byte := 0;
      var j := 0;
      ghost var read := [];
      CacheAfterNothing(mem);
      CounterSteps(et, 0);
      while i < et.blockLength
        invariant 0 <= j <= |turns| && i == Counter(et, j)
        invariant Reading(read, b, None) == ReadTo(old(mem), cacheDuration, et, id, turns, j)
        invariant log == old(log) + read && mem == CacheAfter(old(mem), read)
        decreases |turns| - j
      {
        CounterSteps(et, j);
        ghost var r := RunCmd(mem, cacheDuration, ReadBlock(et, id, j), turns[j]);
        CacheAfterConcat(old(mem), read, r.log);
        ReadNext(old(mem), cacheDuration, et, id, turns, j);
        var cmd := FsmCmd(id, et.fcRead, Addr2Bytes(Plus(et.address, i)), [], step);
        var res := RawCmd(cmd, turns[j]);
        b := b + res.body;
        read, j := read + r.log, j + 1;
        if res.err.Some? {
          err := res.err;
          ReadStops(old(mem), cacheDuration, et, id, turns, j, |turns|);
          return;
        }
        i := (i + step) % 0x100;
      }
    }

    /** `room` is the buffer up to its capacity: slices may reach behind its length. */
    method WriteBlocks(et: EventType, id: Uuid, room: seq<byte>, turns: seq<Turn>) returns (crashed: bool)
      requires WritesFor(et, room, |turns|)
      modifies this`mem, this`log
      ensures var w := WriteTo(old(mem), cacheDuration, et, id, room, turns, |turns|);
              log == old(log) + w && mem == CacheAfter(old(mem), w)
      ensures crashed <==> Counter(et, |turns|) < et.blockLength
    {
      hide CacheAfter, RunCmd, FirstResult, StepOf, Plus, Addr2Bytes, BlockStart, WriteTo, Counter;
      var step := StepOf(et);
      var i: byte := 0;
      var j := 0;
      ghost var written := [];
      CacheAfterNothing(mem);
      NothingWritten(mem, cacheDuration, et, id, room, turns);
      CounterSteps(et, 0);
      while i < et.blockLength
        invariant 0 <= j <= |turns| && i == Counter(et, j)
        invariant written == WriteTo(old(mem), cacheDuration, et, id, room, turns, j)
        invariant log == old(log) + written && mem == CacheAfter(old(mem), written)
        decreases |turns| - j
      {
        CounterSteps(et, j);
        var end := (i + step) % 0x100;
        if !(i <= end <= |room|) {
          return true;
        }
        ghost var r := RunCmd(mem, cacheDuration, WriteBlock(et, id, room, j), turns[j]);
        CacheAfterConcat(old(mem), written, r.log);
        WriteNext(old(mem), cacheDuration, et, id, room, turns, j);
        var cmd := FsmCmd(id, et.fcWrite, Addr2Bytes(Plus(et.address, i)), room[i..end], step);
        var _ := RawCmd(cmd, turns[j]);
        written, j := written + r.log, j + 1;
        i := end;
      }
      crashed := false;
    }

    /** Reads an event block by block and decodes it. */
    method VRead(name: string, id: Uuid, turns: seq<Turn>) returns (data: Option<Codecs.Data>, err: Option<Failure>)
      requires name in eventTypes ==> ReadsFor(mem, cacheDuration, eventTypes[name], id, turns)
      modifies this`mem, this`log
      ensures name !in eventTypes ==> err == Some(NotFound) && log == old(log)
      ensures name in eventTypes && eventTypes[name].fcRead == 0 ==> err == Some(NotReadable) && log == old(log)
      ensures name in eventTypes && eventTypes[name].fcRead != 0 ==>
                var et := eventTypes[name];
                var r := ReadTo(old(mem), cacheDuration, et, id, turns, |turns|);
                && log == old(log) + r.log && mem == CacheAfter(old(mem), r.log)
                && (data, err) == ReadOutcome(et, r)
      ensures name in eventTypes && eventTypes[name].fcRead != 0 ==>
                forall j :: 0 <= j < |turns| && FailsFirst(old(mem), cacheDuration, eventTypes[name], id, turns, j) ==>
                  data == None && err == Some(Failed(BlockResult(old(mem), cacheDuration, eventTypes[name], id, turns, j).err.value))
      ensures name in eventTypes && eventTypes[name].fcRead != 0 ==>
                (err == None <==>
                 (forall j :: 0 <= j < |turns| ==> BlockResult(old(mem), cacheDuration, eventTypes[name], id, turns, j).err == None) &&
                 Codecs.Decode(eventTypes[name], Gathered(old(mem), cacheDuration, eventTypes[name], id, turns, |turns|)).Done?)
      ensures name in eventTypes && eventTypes[name].fcRead != 0 && err == None ==>
                data.Some? &&
                Codecs.Decode(eventTypes[name], Gathered(old(mem), cacheDuration, eventTypes[name], id, turns, |turns|)) == Done(data.value)
      ensures err.Some? ==> data == None
    {
      data := None;
      if name !in eventTypes {
        return None, Some(NotFound);
      }
      var et := eventTypes[name];
      if et.fcRead == 0 {
        return None, Some(NotReadable);
      }
      ReadOutcomeIs(mem, cacheDuration, et, id, turns);
      hide ReadTo, CacheAfter, ReadsFor, Codecs.Decode, Gathered, BlockResult, FailsFirst;
      var b, e := ReadBlocks(et, id, turns);
      if e.Some? {
        return None, Some(Failed(e.value));
      }
      match Codecs.Decode(et, b) {
        case Done(d) => data, err := Some(d), None;
        case Rejected => err := Some(Uncodable);
        case Panicked => err := Some(OutOfRange);
      }
    }

    /** Reads the event's blocks, encodes the value into them and writes them back. */
    method VWrite(name: string, v: Value, id: Uuid, fetches: seq<Turn>, stores: seq<Turn>, spare: seq<byte>)
      returns (err: Option<Failure>)
      requires name in eventTypes ==>
                 Codecs.Sane(eventTypes[name]) &&
                 TurnsFor(mem, cacheDuration, eventTypes[name], id, v, fetches, stores, spare)
      modifies this`mem, this`log
      ensures name !in eventTypes ==> err == Some(NotFound) && log == old(log)
      ensures name in eventTypes ==>
                var w := Writing(old(mem), cacheDuration, eventTypes[name], id, v, fetches, stores, spare);
                err == w.err && log == old(log) + w.log && mem == CacheAfter(old(mem), w.log)
      ensures name in eventTypes ==>
                var et := eventTypes[name];
                (et.fcWrite == 0 || (et.fcRead == 0 && (et.bytePosition != 0 || et.bitLength > 0)) <==> err == Some(NotWritable)) &&
                (err == Some(NotWritable) ==> log == old(log))
      ensures name in eventTypes && err != Some(NotWritable) ==>
                var et := eventTypes[name];
                && (forall j :: 0 <= j < |fetches| && FailsFirst(old(mem), cacheDuration, et, id, fetches, j) ==>
                      err == Some(Failed(BlockResult(old(mem), cacheDuration, et, id, fetches, j).err.value)))
                && (err == None ==>
                      && (forall j :: 0 <= j < |fetches| ==> BlockResult(old(mem), cacheDuration, et, id, fetches, j).err == None)
                      && Codecs.Encode(et, Gathered(old(mem), cacheDuration, et, id, fetches, |fetches|), v).Done?)
      ensures name in eventTypes && err != None && err != Some(OutOfRange) ==>
                forall i :: |old(log)| <= i < |log| ==> log[i].cmd.command == eventTypes[name].fcRead
    {
      if name !in eventTypes {
        return Some(NotFound);
      }
      WritingIsFetched(mem, cacheDuration, eventTypes[name], id, v, fetches, stores, spare);
      hide Writing, BlockResult, FailsFirst, Gathered, CacheAfter, TurnsFor, Codecs.Encode;
      err := Update(eventTypes[name], v, id, fetches, stores, spare);
    }

    method Update(et: EventType, v: Value, id: Uuid, fetches: seq<Turn>, stores: seq<Turn>, spare: seq<byte>)
      returns (err: Option<Failure>)
      requires Codecs.Sane(et) && TurnsFor(mem, cacheDuration, et, id, v, fetches, stores, spare)
      modifies this`mem, this`log
      ensures var w := Writing(old(mem), cacheDuration, et, id, v, fetches, stores, spare);
              err == w.err && log == old(log) + w.log && mem == CacheAfter(old(mem), w.log)
    {
      hide ReadTo, WriteTo, CacheAfter, Codecs.Encode, ReadsFor, WritesFor, Counter;
      CacheAfterNothing(mem);
      if et.fcWrite == 0 {
        return Some(NotWritable);
      }
      if et.fcRead == 0 && (et.bytePosition != 0 || et.bitLength > 0) {
        return Some(NotWritable);
      }
      var b, e := ReadBlocks(et, id, fetches);
      if e.Some? {
        return Some(Failed(e.value));
      }
      var buffer := new byte[|b|](i requires 0 <= i < |b| => b[i]);
      assert buffer[..] == b;
      var r := Codecs.EncodeInPlace(et, buffer, v);
      if r.Rejected? {
        return Some(Uncodable);
      }
      if r.Panicked? {
        return Some(OutOfRange);
      }
      var room := buffer[..] + spare;
      ghost var read := ReadTo(old(mem), cacheDuration, et, id, fetches, |fetches|).log;
      ghost var written := WriteTo(mem, cacheDuration, et, id, room, stores, |stores|);
      CacheAfterConcat(old(mem), read, written);
      var crashed := WriteBlocks(et, id, room, stores);
      assert log == old(log) + (read + written);
      err := if crashed then Some(OutOfRange) else None;
    }
  }

  /** The turns are those of the rounds the read loop makes: until it leaves, or a block fails. */
  ghost predicate ReadsFor(m: MemMap, duration: int, et: EventType, id: Uuid, turns: seq<Turn>) {
    && (forall k: nat :: k < |turns| ==> Counter(et, k) < et.blockLength)
    && (Counter(et, |turns|) >= et.blockLength || ReadTo(m, duration, et, id, turns, |turns|).err.Some?)
  }

  /** The write loop makes n rounds: until it leaves, or a slice is out of range. */
  ghost predicate WritesFor(et: EventType, room: seq<byte>, n: nat) {
    && (forall k: nat :: k < n ==> Counter(et, k) < et.blockLength && Sliceable(et, room, k))
    && (Counter(et, n) >= et.blockLength || !Sliceable(et, room, n))
  }

  /**
   * The turns are those of the rounds both loops make. Buffers are limited to 255 bytes, within which
   * no index of an encoder wraps.
   */
  ghost predicate TurnsFor(
    m: MemMap, duration: int, et: EventType, id: Uuid, v: Value, fetches: seq<Turn>, stores: seq<Turn>, spare: seq<byte>)
    requires Codecs.Sane(et)
  {
    var r := ReadTo(m, duration, et, id, fetches, |fetches|);
    && ReadsFor(m, duration, et, id, fetches)
    && (r.err == None ==>
          |r.body| <= 0xff &&
          (var c := Codecs.Encode(et, r.body, v); c.Done? ==> WritesFor(et, c.value + spare, |stores|)))
  }

  function ReadOutcome(et: EventType, r: Reading): (Option<Codecs.Data>, Option<Failure>) {
    if r.err.Some? then (None, Some(Failed(r.err.value)))
    else
      match Codecs.Decode(et, r.body)
      case Done(d) => (Some(d), None)
      case Rejected => (None, Some(Uncodable))
      case Panicked => (None, Some(OutOfRange))
  }

  // ------------------------------------------- reading and writing, block by block

  /** What the read of block j brings, in the cache state the blocks before it left. */
  ghost function BlockResult(m: MemMap, duration: int, et: EventType, id: Uuid, turns: seq<Turn>, j: nat): FsmResult
    requires j < |turns|
  {
    FirstResult(RunCmd(CacheAfter(m, ReadTo(m, duration, et, id, turns, j).log), duration, ReadBlock(et, id, j), turns[j]))
  }

  /** Block j is the first one whose read fails. */
  ghost predicate FailsFirst(m: MemMap, duration: int, et: EventType, id: Uuid, turns: seq<Turn>, j: nat)
    requires j < |turns|
  {
    && BlockResult(m, duration, et, id, turns, j).err.Some?
    && forall k :: 0 <= k < j ==> BlockResult(m, duration, et, id, turns, k).err == None
  }

  /** The bodies of the first n blocks. */
  ghost function Gathered(m: MemMap, duration: int, et: EventType, id: Uuid, turns: seq<Turn>, n: nat): seq<byte>
    requires n <= |turns|
  {
    if n == 0 then [] else Gathered(m, duration, et, id, turns, n - 1) + BlockResult(m, duration, et, id, turns, n - 1).body
  }

  lemma BlockIsRead(m: MemMap, duration: int, et: EventType, id: Uuid, turns: seq<Turn>, j: nat)
    requires j < |turns| && ReadTo(m, duration, et, id, turns, j).err == None
    ensures var r, x := ReadTo(m, duration, et, id, turns, j), BlockResult(m, duration, et, id, turns, j);
            var r' := ReadTo(m, duration, et, id, turns, j + 1);
            r'.body == r.body + x.body && r'.err == x.err
  {
    hide RunCmd, CacheAfter, ReadBlock, ReadTo, FirstResult;
    ReadNext(m, duration, et, id, turns, j);
  }

  /** Reading stops at the first block that fails, and otherwise gathers all bodies. */
  lemma {:induction false} ReadToGathers(m: MemMap, duration: int, et: EventType, id: Uuid, turns: seq<Turn>, n: nat)
    requires n <= |turns|
    ensures var r := ReadTo(m, duration, et, id, turns, n);
            && (r.err == None <==> forall j :: 0 <= j < n ==> BlockResult(m, duration, et, id, turns, j).err == None)
            && (r.err == None ==> r.body == Gathered(m, duration, et, id, turns, n))
            && (forall j :: 0 <= j < n && FailsFirst(m, duration, et, id, turns, j) ==>
                  r.err == BlockResult(m, duration, et, id, turns, j).err)
    decreases n
  {
    hide ReadTo, BlockResult;
    if n == 0 {
      NothingRead(m, duration, et, id, turns);
    } else {
      ReadToGathers(m, duration, et, id, turns, n - 1);
      if ReadTo(m, duration, et, id, turns, n - 1).err == None {
        BlockIsRead(m, duration, et, id, turns, n - 1);
      } else {
        ReadStops(m, duration, et, id, turns, n - 1, n);
      }
    }
  }

  /** The outcome of a read: the first failure, or what the gathered bodies decode to. */
  lemma ReadOutcomeIs(m: MemMap, duration: int, et: EventType, id: Uuid, turns: seq<Turn>)
    ensures var o := ReadOutcome(et, ReadTo(m, duration, et, id, turns, |turns|));
            && (forall j :: 0 <= j < |turns| && FailsFirst(m, duration, et, id, turns, j) ==>
                  o == (None, Some(Failed(BlockResult(m, duration, et, id, turns, j).err.value))))
            && (o.1 == None <==>
                (forall j :: 0 <= j < |turns| ==> BlockResult(m, duration, et, id, turns, j).err == None) &&
                Codecs.Decode(et, Gathered(m, duration, et, id, turns, |turns|)).Done?)
            && (o.1 == None ==> o.0.Some? && Codecs.Decode(et, Gathered(m, duration, et, id, turns, |turns|)) == Done(o.0.value))
            && (o.1.Some? ==> o.0 == None)
  {
    hide ReadTo, BlockResult, Gathered, Codecs.Decode;
    ReadToGathers(m, duration, et, id, turns, |turns|);
    if n: nat :| n < |turns| && FailsFirst(m, duration, et, id, turns, n) {
      assert BlockResult(m, duration, et, id, turns, n).err.Some?;
    }
  }

  /** All chunks of a command carry its command byte. */
  lemma SameCommand(m: MemMap, duration: int, cmd: FsmCmd, turn: Turn)
    ensures forall i :: 0 <= i < |RunCmd(m, duration, cmd, turn).log| ==>
              RunCmd(m, duration, cmd, turn).log[i].cmd.command == cmd.command
  {
    hide Hit, ChunkCount, AnsweredCount;
  }

  /** Reading sends read commands only. */
  lemma {:induction false} OnlyReads(m: MemMap, duration: int, et: EventType, id: Uuid, turns: seq<Turn>, n: nat)
    requires n <= |turns|
    ensures var log := ReadTo(m, duration, et, id, turns, n).log;
            forall i :: 0 <= i < |log| ==> log[i].cmd.command == et.fcRead
    decreases n
  {
    hide ReadTo, RunCmd, CacheAfter, FirstResult;
    if n == 0 {
      NothingRead(m, duration, et, id, turns);
    } else {
      OnlyReads(m, duration, et, id, turns, n - 1);
      var r := ReadTo(m, duration, et, id, turns, n - 1);
      if r.err == None {
        ReadNext(m, duration, et, id, turns, n - 1);
        SameCommand(CacheAfter(m, r.log), duration, ReadBlock(et, id, n - 1), turns[n - 1]);
      } else {
        ReadStops(m, duration, et, id, turns, n - 1, n);
      }
    }
  }

  /** The outcome of a write: refused, failed while reading, not encodable - all without a write -, or written. */
  lemma WritingIsFetched(m: MemMap, duration: int, et: EventType, id: Uuid, v: Value,
                         fetches: seq<Turn>, stores: seq<Turn>, spare: seq<byte>)
    requires Codecs.Sane(et)
    ensures var w := Writing(m, duration, et, id, v, fetches, stores, spare);
            && (et.fcWrite == 0 || (et.fcRead == 0 && (et.bytePosition != 0 || et.bitLength > 0)) <==> w.err == Some(NotWritable))
            && (w.err == Some(NotWritable) ==> w.log == [])
            && (w.err != Some(NotWritable) ==>
                  && (forall j :: 0 <= j < |fetches| && FailsFirst(m, duration, et, id, fetches, j) ==>
                        w.err == Some(Failed(BlockResult(m, duration, et, id, fetches, j).err.value)))
                  && (w.err == None ==>
                        && (forall j :: 0 <= j < |fetches| ==> BlockResult(m, duration, et, id, fetches, j).err == None)
                        && Codecs.Encode(et, Gathered(m, duration, et, id, fetches, |fetches|), v).Done?))
            && (w.err != None && w.err != Some(OutOfRange) ==>
                  forall i :: 0 <= i < |w.log| ==> w.log[i].cmd.command == et.fcRead)
  {
    hide ReadTo, WriteTo, CacheAfter, BlockResult, Gathered, Codecs.Encode, Counter;
    ReadToGathers(m, duration, et, id, fetches, |fetches|);
    OnlyReads(m, duration, et, id, fetches, |fetches|);
    if n: nat :| n < |fetches| && FailsFirst(m, duration, et, id, fetches, n) {
      assert BlockResult(m, duration, et, id, fetches, n).err.Some?;
    }
  }

  datatype WriteRun = WriteRun(log: seq<Exchange>, err: Option<Failure>)

  predicate Writable(et: EventType) {
    et.fcWrite != 0 && (et.fcRead != 0 || (et.bytePosition == 0 && et.bitLength == 0))
  }

  /** Read, modify, write. `spare` is what lies behind the buffer, up to its capacity. */
  function Writing(m: MemMap, duration: int, et: EventType, id: Uuid, v: Value,
                   fetches: seq<Turn>, stores: seq<Turn>, spare: seq<byte>): WriteRun
    requires Codecs.Sane(et)
  {
    if !Writable(et) then WriteRun([], Some(NotWritable))
    else
      var r := ReadTo(m, duration, et, id, fetches, |fetches|);
      if r.err.Some? then WriteRun(r.log, Some(Failed(r.err.value)))
      else
        match Codecs.Encode(et, r.body, v)
        case Done(b) =>
          WriteRun(r.log + WriteTo(CacheAfter(m, r.log), duration, et, id, b + spare, stores, |stores|),
                   if Counter(et, |stores|) < et.blockLength then Some(OutOfRange) else None)
        case Rejected => WriteRun(r.log, Some(Uncodable))
        case Panicked => WriteRun(r.log, Some(OutOfRange))
  }

  lemma CacheAfterNothing(m: MemMap)
    ensures CacheAfter(m, []) == m
  {
  }

  lemma OneCommand(m: MemMap, duration: int, cmd: FsmCmd, turn: Turn)
    ensures var b := RunCmd(m, duration, cmd, turn);
            (b.loss == None ==> |b.results| == 1) && RunCmds(m, duration, [cmd], [turn]) == b &&
            |b.Returned()| >= 1 && b.Returned()[0] == FirstResult(b)
  {
    hide ChunkLog, ChunkCount, Cached;
    var b := RunCmd(m, duration, cmd, turn);
    assert [cmd][..0] == [] && [turn][..0] == [];
    assert [] + b.log == b.log && [] + b.results == b.results;
  }

  lemma CounterSteps(et: EventType, j: nat)
    ensures Counter(et, 0) == 0
    ensures Counter(et, j + 1) == (Counter(et, j) + StepOf(et)) % 0x100
  {
    hide StepOf;
    assert BlockStart(et, j + 1) == BlockStart(et, j) + StepOf(et);
    hide BlockStart;
    WrapOnce(BlockStart(et, j), StepOf(et));
  }

  lemma WrapOnce(x: nat, y: nat)
    ensures (x + y) % 0x100 == (x % 0x100 + y) % 0x100
  {
  }

  lemma NothingRead(m: MemMap, duration: int, et: EventType, id: Uuid, turns: seq<Turn>)
    ensures ReadTo(m, duration, et, id, turns, 0) == Reading([], [], None)
  {
  }

  lemma ReadNext(m: MemMap, duration: int, et: EventType, id: Uuid, turns: seq<Turn>, j: nat)
    requires j < |turns| && ReadTo(m, duration, et, id, turns, j).err == None
    ensures var r := ReadTo(m, duration, et, id, turns, j);
            var b := RunCmd(CacheAfter(m, r.log), duration, ReadBlock(et, id, j), turns[j]);
            ReadTo(m, duration, et, id, turns, j + 1) ==
            Reading(r.log + b.log, r.body + FirstResult(b).body, FirstResult(b).err)
  {
  }

  lemma NothingWritten(m: MemMap, duration: int, et: EventType, id: Uuid, b: seq<byte>, turns: seq<Turn>)
    ensures WriteTo(m, duration, et, id, b, turns, 0) == []
  {
  }

  lemma WriteNext(m: MemMap, duration: int, et: EventType, id: Uuid, b: seq<byte>, turns: seq<Turn>, j: nat)
    requires j < |turns|
    ensures var log := WriteTo(m, duration, et, id, b, turns, j);
            WriteTo(m, duration, et, id, b, turns, j + 1) ==
            log + RunCmd(CacheAfter(m, log), duration, WriteBlock(et, id, b, j), turns[j]).log
  {
  }

  lemma {:induction false} ReadStops(m: MemMap, duration: int, et: EventType, id: Uuid, turns: seq<Turn>, j: nat, n: nat)
    requires j <= n <= |turns| && ReadTo(m, duration, et, id, turns, j).err.Some?
    ensures ReadTo(m, duration, et, id, turns, n) == ReadTo(m, duration, et, id, turns, j)
    decreases n
  {
    hide RunCmd, CacheAfter, FirstResult;
    if j < n {
      ReadStops(m, duration, et, id, turns, j, n - 1);
    }
  }

  lemma NothingRun(m: MemMap, duration: int)
    ensures RunCmds(m, duration, [], []) == Batch([], [], None) && CacheAfter(m, []) == m
  {
  }

  lemma LostReturns(m: MemMap, duration: int, cmds: seq<FsmCmd>, turns: seq<Turn>, n: nat)
    requires |turns| == |cmds| && n < |cmds|
    requires var b := RunCmds(m, duration, cmds[..n], turns[..n]);
             b.loss == None && RunCmd(CacheAfter(m, b.log), duration, cmds[n], turns[n]).loss.Some?
    ensures var b := RunCmds(m, duration, cmds[..n], turns[..n]);
            var r := RunCmd(CacheAfter(m, b.log), duration, cmds[n], turns[n]);
            var all := RunCmds(m, duration, cmds, turns);
            && all.log == b.log + r.log
            && all.Returned() == if r.loss.value.CommandsClosed? then b.results + [FsmResult(0, Some(ClosedChannel), [])]
                                 else [FsmResult(0, Some(Eof), [])]
  {
    RunCmdsLost(m, duration, cmds, turns, n);
    LostHasNoResult(CacheAfter(m, RunCmds(m, duration, cmds[..n], turns[..n]).log), duration, cmds[n], turns[n]);
    hide RunCmd, RunCmds, CacheAfter;
  }

  lemma LostHasNoResult(m: MemMap, duration: int, cmd: FsmCmd, turn: Turn)
    requires RunCmd(m, duration, cmd, turn).loss.Some?
    ensures RunCmd(m, duration, cmd, turn).results == []
  {
    hide ChunkLog, ChunkCount;
  }

  lemma LogStart(m: MemMap, log: seq<Exchange>)
    ensures log[..0] == [] && CacheAfter(m, []) == m && ChunkResult([]) == FsmResult(0, None, [])
  {
  }

  /** The next chunk's exchange is in the log iff the chunk is answered. */
  lemma ChunkAt(cmd: FsmCmd, turn: Turn, i: nat)
    requires CHUNK * i < cmd.resultLen && i <= |ChunkLog(cmd, turn)|
    ensures i < |ChunkLog(cmd, turn)| <==> i < |turn.replies| && turn.replies[i].Answered?
    ensures i < |ChunkLog(cmd, turn)| ==>
              ChunkLog(cmd, turn)[i] ==
              Exchange(cmd.(address := Addr2Bytes(Plus(AddrOf(cmd), CHUNK * i)), resultLen := Min(CHUNK, cmd.resultLen - CHUNK * i)),
                       turn.now, turn.replies[i].result)
    ensures i < ChunkCount(cmd.resultLen)
    ensures i == |ChunkLog(cmd, turn)| ==> ChunkLog(cmd, turn)[..i] == ChunkLog(cmd, turn)
  {
  }

  lemma ChunksEnd(cmd: FsmCmd, turn: Turn, i: nat)
    requires CHUNK * i >= cmd.resultLen && i <= |ChunkLog(cmd, turn)|
    ensures i == |ChunkLog(cmd, turn)| == ChunkCount(cmd.resultLen)
    ensures ChunkLog(cmd, turn)[..i] == ChunkLog(cmd, turn)
  {
  }

  lemma LogStep(m: MemMap, log: seq<Exchange>, i: nat)
    requires i < |log|
    ensures log[..i + 1] == log[..i] + [log[i]]
    ensures CacheAfter(m, log[..i + 1]) == Remember(CacheAfter(m, log[..i]), log[i])
    ensures var before, x := ChunkResult(log[..i]), log[i].result;
            ChunkResult(log[..i + 1]) == FsmResult(x.id, if x.err.Some? then x.err else before.err, before.body + x.body)
  {
    assert log[..i + 1][..i] == log[..i];
  }

  /** Once the engine is lost the remaining commands are not looked at. */
  lemma {:induction false} RunCmdsStops(m: MemMap, duration: int, cmds: seq<FsmCmd>, turns: seq<Turn>, n: nat)
    requires |turns| == |cmds| && n <= |cmds|
    requires RunCmds(m, duration, cmds[..n], turns[..n]).loss.Some?
    ensures RunCmds(m, duration, cmds, turns) == RunCmds(m, duration, cmds[..n], turns[..n])
    decreases |cmds|
  {
    hide RunCmd, CacheAfter;
    if n == |cmds| {
      assert cmds[..n] == cmds && turns[..n] == turns;
    } else {
      var l := |cmds| - 1;
      assert cmds[..l][..n] == cmds[..n] && turns[..l][..n] == turns[..n];
      RunCmdsStops(m, duration, cmds[..l], turns[..l], n);
    }
  }

  lemma RunCmdsNext(m: MemMap, duration: int, cmds: seq<FsmCmd>, turns: seq<Turn>, n: nat)
    requires |turns| == |cmds| && n < |cmds| && RunCmds(m, duration, cmds[..n], turns[..n]).loss == None
    ensures var b := RunCmds(m, duration, cmds[..n], turns[..n]);
            var r := RunCmd(CacheAfter(m, b.log), duration, cmds[n], turns[n]);
            RunCmds(m, duration, cmds[..n + 1], turns[..n + 1]) == Batch(b.log + r.log, b.results + r.results, r.loss)
  {
    hide RunCmd, CacheAfter;
    assert cmds[..n + 1][..n] == cmds[..n] && turns[..n + 1][..n] == turns[..n];
  }

  lemma RunCmdsLost(m: MemMap, duration: int, cmds: seq<FsmCmd>, turns: seq<Turn>, n: nat)
    requires |turns| == |cmds| && n < |cmds|
    requires var b := RunCmds(m, duration, cmds[..n], turns[..n]);
             b.loss == None && RunCmd(CacheAfter(m, b.log), duration, cmds[n], turns[n]).loss.Some?
    ensures var b := RunCmds(m, duration, cmds[..n], turns[..n]);
            var r := RunCmd(CacheAfter(m, b.log), duration, cmds[n], turns[n]);
            RunCmds(m, duration, cmds, turns) == Batch(b.log + r.log, b.results + r.results, r.loss)
  {
    hide RunCmd, RunCmds, CacheAfter;
    RunCmdsNext(m, duration, cmds, turns, n);
    RunCmdsStops(m, duration, cmds, turns, n + 1);
  }
}
