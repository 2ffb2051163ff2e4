/** Without any discipline about blocks: when what the cache serves is the controller's current memory. */
module Currency {
  import opened Bytes
  import opened Telegram
  import opened Refinement
  import opened Commands
  import opened Cache
  import opened BlockAccess

  /** A successful write that stored a byte at address a. */
  predicate WritesTo(x: Exchange, a: Addr) {
    x.result.err == None && IsWrite(x.cmd) && Offset(AddrOf(x.cmd), a) < |x.cmd.args|
  }

  predicate LastWriteTo(log: seq<Exchange>, a: Addr, j: nat) {
    j < |log| && WritesTo(log[j], a) && forall k :: j < k < |log| ==> !WritesTo(log[k], a)
  }

  /** The byte a write stored at address a. */
  function ByteWritten(x: Exchange, a: Addr): byte
    requires WritesTo(x, a)
  {
    x.cmd.args[Offset(AddrOf(x.cmd), a)]
  }

  predicate ReadsAndWrites(log: seq<Exchange>) {
    forall i :: 0 <= i < |log| ==> IsRead(log[i].cmd) || IsWrite(log[i].cmd)
  }

  lemma OneExchangeAt(m: Memory, log: seq<Exchange>, a: Addr)
    requires log != [] && ReadsAndWrites(log)
    ensures var n := |log| - 1;
            MemoryAfter(m, log)[a] ==
            if WritesTo(log[n], a) then ByteWritten(log[n], a) else MemoryAfter(m, log[..n])[a]
  {
  }

  /** The last write to an address from exchange i on decides about its byte; without one it stays what it was before i. */
  lemma {:induction false} MemoryAt(m: Memory, log: seq<Exchange>, a: Addr, i: nat)
    requires i <= |log| && ReadsAndWrites(log)
    ensures forall j: nat :: i <= j && LastWriteTo(log, a, j) ==> MemoryAfter(m, log)[a] == ByteWritten(log[j], a)
    ensures (forall j :: i <= j < |log| ==> !WritesTo(log[j], a)) ==> MemoryAfter(m, log)[a] == MemoryAfter(m, log[..i])[a]
    decreases |log|
  {
    if i == |log| {
      assert log[..i] == log;
    } else {
      hide WritesTo, ByteWritten, MemoryAfter, IsRead, IsWrite;
      var n := |log| - 1;
      OneExchangeAt(m, log, a);
      MemoryAt(m, log[..n], a, i);
      assert log[..n][..i] == log[..i];
      forall j: nat | i <= j && LastWriteTo(log, a, j)
        ensures MemoryAfter(m, log)[a] == ByteWritten(log[j], a)
      {
        if j < n {
          assert !WritesTo(log[n], a);
          assert LastWriteTo(log[..n], a, j);
        }
      }
    }
  }

  /** The byte a successful read left in the cache is the one it found in memory. */
  lemma ReadByte(m: Memory, log: seq<Exchange>, a: Addr, i: nat)
    requires Faithful(m, log) && Latest(log, a, i) && IsRead(log[i].cmd) && log[i].result.err == None
    ensures ByteFor(log[i], a) == MemoryAfter(m, log[..i])[a]
  {
    assert FaithfulAt(m, log, i);
    hide MemoryAfter, Faithful, Latest;
    LatestInside(log, a, i);
    ReadBody(MemoryAfter(m, log[..i]), log[i], a);
  }

  lemma ReadBody(m: Memory, x: Exchange, a: Addr)
    requires Covers(x, a) && IsRead(x.cmd) && x.result.err == None && x.result.body == Serve(m, RequestOf(x.cmd)).body
    ensures ByteFor(x, a) == m[a]
  {
    assert Stored(x) == Slice(m, AddrOf(x.cmd), x.cmd.resultLen);
    PlusOffset(AddrOf(x.cmd), a);
  }

  /** No write since exchange i has changed the byte at address a, or the last one put it back. */
  ghost predicate Undisturbed(log: seq<Exchange>, a: Addr, i: nat)
    requires Latest(log, a, i)
  {
    forall j: nat :: i < j && LastWriteTo(log, a, j) ==> ByteWritten(log[j], a) == ByteFor(log[i], a)
  }

  lemma ByteIsCurrentIff(m: Memory, log: seq<Exchange>, a: Addr, i: nat)
    requires Faithful(m, log) && ReadsAndWrites(log)
    requires Latest(log, a, i) && IsRead(log[i].cmd) && log[i].result.err == None
    ensures ByteFor(log[i], a) == MemoryAfter(m, log)[a] <==> Undisturbed(log, a, i)
  {
    hide MemoryAfter, ByteFor, ByteWritten, Latest, Faithful;
    LatestInside(log, a, i);
    ReadByte(m, log, a, i);
    MemoryAt(m, log, a, i);
    assert !WritesTo(log[i], a) by {
      ReadsAreNotWrites(log[i].cmd);
    }
    if forall j :: i <= j < |log| ==> !WritesTo(log[j], a) {
    } else {
      var j := LastOf(log, a, i);
    }
  }

  lemma {:induction false} LastOf(log: seq<Exchange>, a: Addr, i: nat) returns (j: nat)
    requires exists k :: i <= k < |log| && WritesTo(log[k], a)
    ensures i <= j && LastWriteTo(log, a, j)
    decreases |log|
  {
    hide WritesTo;
    var n := |log| - 1;
    if WritesTo(log[n], a) {
      j := n;
    } else {
      var k :| i <= k < |log| && WritesTo(log[k], a);
      assert log[..n][k] == log[k];
      j := LastOf(log[..n], a, i);
    }
  }

  /**
   * A hit is current, whatever was read and written before, exactly if for each of its bytes no write
   * since the exchange that left it in the cache has changed it, or the last such write put it back.
   */
  lemma HitIsCurrentIff(m: Memory, log: seq<Exchange>, duration: int, cmd: FsmCmd, now: nat)
    requires Faithful(m, log) && ReadsAndWrites(log)
    requires Hit(CacheAfter(map[], log), duration, cmd, now)
    ensures CachedBytes(CacheAfter(map[], log), AddrOf(cmd), cmd.resultLen) == Slice(MemoryAfter(m, log), AddrOf(cmd), cmd.resultLen)
            <==>
            forall k: nat, i: nat :: k < cmd.resultLen && Latest(log, Plus(AddrOf(cmd), k), i) ==>
                                       Undisturbed(log, Plus(AddrOf(cmd), k), i)
  {
    hide Faithful, MemoryAfter, CacheAfter, Latest, Undisturbed, ByteFor;
    var mem := CacheAfter(map[], log);
    var s, t := CachedBytes(mem, AddrOf(cmd), cmd.resultLen), Slice(MemoryAfter(m, log), AddrOf(cmd), cmd.resultLen);
    forall k: nat | k < cmd.resultLen
      ensures s[k] == t[k] <==> forall i: nat :: Latest(log, Plus(AddrOf(cmd), k), i) ==> Undisturbed(log, Plus(AddrOf(cmd), k), i)
    {
      EntryIsCurrentIff(m, log, Plus(AddrOf(cmd), k));
    }
    SameBytes(s, t);
  }

  lemma SameBytes(s: seq<byte>, t: seq<byte>)
    requires |s| == |t|
    ensures s == t <==> forall k: nat :: k < |s| ==> s[k] == t[k]
  {
  }

  /** The same for one valid entry of the cache. */
  lemma EntryIsCurrentIff(m: Memory, log: seq<Exchange>, a: Addr)
    requires Faithful(m, log) && ReadsAndWrites(log) && ValidAt(CacheAfter(map[], log), a)
    ensures CacheAfter(map[], log)[a].data == MemoryAfter(m, log)[a] <==>
              forall i: nat :: Latest(log, a, i) ==> Undisturbed(log, a, i)
  {
    hide Faithful, MemoryAfter, CacheAfter, Undisturbed, Stored, IsRead;
    CacheIsLatest(log, a);
    var i: nat :| Latest(log, a, i);
    assert EntryFrom(CacheAfter(map[], log), log, a, i);
    ValidIsRead(log[i], a);
    ByteIsCurrentIff(m, log, a, i);
    forall j: nat | Latest(log, a, j)
      ensures j == i
    {
      assert i <= j && j <= i;
    }
  }

  /** Only reads leave entries that may be served, and only successful ones leave any. */
  lemma ValidIsRead(x: Exchange, a: Addr)
    requires Covers(x, a) && StampOf(x) != 0 && (IsRead(x.cmd) || IsWrite(x.cmd))
    ensures IsRead(x.cmd) && x.result.err == None
  {
    ReadsAreNotWrites(x.cmd);
  }

  const FIRST := AddrBytes(0x00, 0x10)
  const SECOND := AddrBytes(0x00, 0x11)

  /** Both bytes at 0x10 are read, then one command writes both. */
  function ReadThenWrite(x: byte, y: byte): seq<Exchange> {
    [Exchange(FsmCmd(1, P300_READ, FIRST, [], 2), 5, FsmResult(1, None, [x, y])),
     Exchange(FsmCmd(2, P300_WRITE, FIRST, [1, 2], 2), 6, FsmResult(2, None, [2]))]
  }

  lemma ReadThenWriteIsFaithful(m: Memory)
    ensures var log := ReadThenWrite(m[0x10], m[0x11]);
            Faithful(m, log) && MemoryAfter(m, log) == Store(m, 0x10, [1, 2])
  {
    var log := ReadThenWrite(m[0x10], m[0x11]);
    assert log[..1] == [log[0]] && [log[0]][..0] == [] && log[..0] == [];
    assert Slice(m, 0x10, 2) == [m[0x10], m[0x11]];
    assert MemoryAfter(m, []) == m && MemoryAfter(m, [log[0]]) == m;
    assert FaithfulAt(m, log, 0) && FaithfulAt(m, log, 1);
  }

  lemma ReadThenWriteCached(x: byte, y: byte)
    ensures var mem := CacheAfter(map[], ReadThenWrite(x, y));
            0x11 in mem && mem[0x11] == MemEntry(y, 5)
  {
    var log := ReadThenWrite(x, y);
    assert log[..1] == [log[0]] && [log[0]][..0] == [];
    assert CacheAfter(map[], []) == map[] && CacheAfter(map[], [log[0]]) == Remember(map[], log[0]);
    hide Remember, CacheAfter;
    RememberAt(map[], log[0], 0x11);
    RememberAt(Remember(map[], log[0]), log[1], 0x11);
    NextCached(log);
  }

  lemma NextCached(log: seq<Exchange>)
    requires |log| == 2
    ensures CacheAfter(map[], log) == Remember(CacheAfter(map[], [log[0]]), log[1])
  {
    assert log[..1] == [log[0]];
  }

  /**
   * A stale hit: two bytes are read, then both are written by one command; the second one is still
   * served as it was read.
   */
  lemma StaleHit(m: Memory)
    requires m[0x11] == 7
    ensures var log := ReadThenWrite(m[0x10], m[0x11]);
            var cmd := FsmCmd(3, P300_READ, SECOND, [], 1);
            && Faithful(m, log)
            && Hit(CacheAfter(map[], log), 100, cmd, 7)
            && CachedBytes(CacheAfter(map[], log), AddrOf(cmd), 1) == [7]
            && Slice(MemoryAfter(m, log), AddrOf(cmd), 1) == [2]
  {
    hide CacheAfter, MemoryAfter, Faithful, ReadThenWrite, Store;
    var log := ReadThenWrite(m[0x10], m[0x11]);
    ReadThenWriteIsFaithful(m);
    ReadThenWriteCached(m[0x10], m[0x11]);
    SecondByte(m);
    PlusZero(0x11);
  }

  lemma SecondByte(m: Memory)
    ensures Store(m, 0x10, [1, 2])[0x11] == 2
  {
  }
}
