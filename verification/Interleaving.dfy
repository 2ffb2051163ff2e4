/**
 * Any number of `VRead`s and `VWrite`s at the same time, interleaved command by command. A `VWrite`
 * holds the write lock from its first read to its last write.
 */
module Interleaving {
  import opened Bytes
  import opened Bits
  import opened Telegram
  import opened Events
  import opened Runs
  import opened Refinement
  import opened Commands
  import opened Cache
  import opened BlockAccess
  import opened RoundTrip
  import Codec
  import Codecs

  type Thread = nat

  datatype Task =
    | Resting
    | Viewing(et: EventType, id: Uuid, body: seq<byte>, j: nat)
    | Fetching(et: EventType, id: Uuid, v: Value, body: seq<byte>, j: nat)
    | Storing(et: EventType, id: Uuid, v: Value, b: seq<byte>, j: nat)

  datatype Update = Update(et: EventType, v: Value)

  datatype Shared = Shared(tasks: map<Thread, Task>, lock: Option<Thread>, mem: MemMap, memory: Memory, duration: int) {
    function TaskOf(t: Thread): Task {
      if t in tasks then tasks[t] else Resting
    }
  }

  datatype Event =
    | StartRead(t: Thread, et: EventType, id: Uuid)
    | StartWrite(t: Thread, et: EventType, id: Uuid, v: Value)
    | Advance(t: Thread, turn: Turn)   // the next command of the thread

  predicate Writes(task: Task) {
    task.Fetching? || task.Storing?
  }

  function NextCmd(task: Task): FsmCmd
    requires !task.Resting?
    requires task.Storing? ==> WellBlocked(task.et) && |task.b| == task.et.blockLength && task.j < Parts(task.et)
  {
    match task
    case Viewing(et, id, _, j) => ReadBlock(et, id, j)
    case Fetching(et, id, _, _, j) => ReadBlock(et, id, j)
    case Storing(et, id, _, b, j) => WriteBlock(et, id, b, j)
  }

  predicate Sound(task: Task) {
    task.Storing? ==> WellBlocked(task.et) && |task.b| == task.et.blockLength && task.j < Parts(task.et)
  }

  /** Events are limited to blocks of the partition; exchanges are faithful, and those of writes succeed. */
  ghost predicate Enabled(blocks: set<Block>, s: Shared, e: Event) {
    match e
    case StartRead(t, et, _) => s.TaskOf(t).Resting? && Laid(blocks, et)
    case StartWrite(t, et, _, _) => s.TaskOf(t).Resting? && s.lock == None && Laid(blocks, et)
    case Advance(t, turn) =>
      var task := s.TaskOf(t);
      && !task.Resting? && Sound(task)
      && var r := RunCmd(s.mem, s.duration, NextCmd(task), turn);
         Faithful(s.memory, r.log) && (task.Storing? ==> |r.log| == 1 && AllSucceed(r.log))
  }

  ghost function Happen(blocks: set<Block>, s: Shared, e: Event): Outcome<Shared, Update, ()> {
    if !Enabled(blocks, s, e) then Outcome(s, [], None)
    else
      match e
      case StartRead(t, et, id) => Outcome(s.(tasks := s.tasks[t := Viewing(et, id, [], 0)]), [], None)
      case StartWrite(t, et, id, v) => Outcome(s.(tasks := s.tasks[t := Fetching(et, id, v, [], 0)], lock := Some(t)), [], None)
      case Advance(t, turn) =>
        var task := s.TaskOf(t);
        var r := RunCmd(s.mem, s.duration, NextCmd(task), turn);
        var s' := s.(mem := CacheAfter(s.mem, r.log), memory := MemoryAfter(s.memory, r.log));
        Proceed(s', t, task, FirstResult(r))
  }

  /** What a thread does with the result of its command. */
  ghost function Proceed(s: Shared, t: Thread, task: Task, x: FsmResult): Outcome<Shared, Update, ()>
    requires !task.Resting?
  {
    match task
    case Viewing(et, id, body, j) =>
      var next := if x.err.Some? || j + 1 >= Parts(et) then Resting else Viewing(et, id, body + x.body, j + 1);
      Outcome(s.(tasks := s.tasks[t := next]), [], None)
    case Fetching(et, id, v, body, j) =>
      var b := body + x.body;
      if x.err.Some? then Leave(s, t)
      else if j + 1 < Parts(et) then Outcome(s.(tasks := s.tasks[t := Fetching(et, id, v, b, j + 1)]), [], None)
      else if |b| != et.blockLength || !Codecs.Sane(et) then Leave(s, t)
      else
        (match Codecs.Encode(et, b, v)
         case Done(c) => Outcome(s.(tasks := s.tasks[t := Storing(et, id, v, c, 0)]), [], None)
         case _ => Leave(s, t))
    case Storing(et, id, v, b, j) =>
      if j + 1 < Parts(et) then Outcome(s.(tasks := s.tasks[t := Storing(et, id, v, b, j + 1)]), [], None)
      else Leave(s, t).(actions := [Update(et, v)])
  }

  /** The thread gives the write lock back. */
  ghost function Leave(s: Shared, t: Thread): Outcome<Shared, Update, ()> {
    Outcome(s.(tasks := s.tasks[t := Resting], lock := None), [], None)
  }

  // --------------------------------------------------------------- specification

  /** One write as an atomic change of the controller's memory. */
  function Apply(m: Memory, u: Update): Memory {
    if !Codecs.Sane(u.et) then m
    else
      match Codecs.Encode(u.et, BufferOf(m, u.et), u.v)
      case Done(c) => Store(m, u.et.address, c)
      case _ => m
  }

  function ApplyAll(m: Memory, us: seq<Update>): Memory {
    if us == [] then m else Apply(ApplyAll(m, us[..|us| - 1]), us[|us| - 1])
  }

  /** How far the holder of the lock has come, relative to the memory `base` the finished writes left. */
  ghost predicate TaskFits(task: Task, base: Memory, memory: Memory) {
    match task
    case Fetching(et, _, _, body, j) =>
      memory == base && j < Parts(et) && body == Slice(base, et.address, BlockStart(et, j))
    case Storing(et, _, v, b, j) =>
      && Codecs.Sane(et) && Codecs.Encode(et, BufferOf(base, et), v) == Done(b) && j < Parts(et)
      && BlockStart(et, j) <= |b| && memory == Store(base, et.address, b[..BlockStart(et, j)])
    case _ => memory == base
  }

  ghost predicate Consistent(blocks: set<Block>, base: Memory, s: Shared) {
    && Coherent(blocks, s.mem, s.memory)
    && (forall t: Thread :: !s.TaskOf(t).Resting? ==> Laid(blocks, s.TaskOf(t).et) && s.TaskOf(t).j < Parts(s.TaskOf(t).et))
    && (forall t: Thread :: Writes(s.TaskOf(t)) <==> s.lock == Some(t))
    && (match s.lock case None => s.memory == base case Some(t) => TaskFits(s.TaskOf(t), base, s.memory))
  }

  // ---------------------------------------------------------------------- steps

  lemma StartKeeps(blocks: set<Block>, base: Memory, s: Shared, e: Event)
    requires Consistent(blocks, base, s) && !e.Advance?
    ensures var o := Happen(blocks, s, e);
            o.stop == None && o.actions == [] && Consistent(blocks, base, o.next)
  {
    hide Coherent, Laid, Codecs.Encode, Slice;
    var o := Happen(blocks, s, e);
    if Enabled(blocks, s, e) {
      hide Enabled;
      assert Slice(s.memory, e.et.address, 0) == [];
      LaidHasBlock(blocks, e.et);
      forall t: Thread
        ensures Writes(o.next.TaskOf(t)) <==> o.next.lock == Some(t)
        ensures !o.next.TaskOf(t).Resting? ==> Laid(blocks, o.next.TaskOf(t).et) && o.next.TaskOf(t).j < Parts(o.next.TaskOf(t).et)
      {
        assert t != e.t ==> o.next.TaskOf(t) == s.TaskOf(t);
      }
    }
  }

  lemma LaidHasBlock(blocks: set<Block>, et: EventType)
    requires Laid(blocks, et)
    ensures 0 < Parts(et) && BlockStart(et, 0) == 0
  {
  }

  /** A thread that does not write changes no memory, whatever it reads. */
  lemma ReaderKeeps(blocks: set<Block>, base: Memory, s: Shared, t: Thread, turn: Turn)
    requires Partition(blocks) && Consistent(blocks, base, s) && s.TaskOf(t).Viewing?
    requires Enabled(blocks, s, Advance(t, turn))
    ensures var o := Happen(blocks, s, Advance(t, turn));
            o.stop == None && o.actions == [] && Consistent(blocks, base, o.next)
  {
    hide Coherent, Laid, RunCmd, CmdDone, Partition, FirstResult, CacheAfter, MemoryAfter, Faithful, TaskFits, Codecs.Encode;
    var task := s.TaskOf(t);
    ReadBlockStep(blocks, s.memory, s.mem, s.duration, task.et, task.id, turn, task.j);
    var o := Happen(blocks, s, Advance(t, turn));
    assert o.next.memory == s.memory;
    hide Happen, Enabled;
    forall u: Thread
      ensures u != t ==> o.next.TaskOf(u) == s.TaskOf(u)
    {
    }
  }

  /** The thread with the lock reads one more block of the memory the finished writes left. */
  lemma FetcherKeeps(blocks: set<Block>, base: Memory, s: Shared, t: Thread, turn: Turn)
    requires Partition(blocks) && Consistent(blocks, base, s) && s.TaskOf(t).Fetching?
    requires Enabled(blocks, s, Advance(t, turn))
    ensures var o := Happen(blocks, s, Advance(t, turn));
            o.stop == None && o.actions == [] && Consistent(blocks, base, o.next)
  {
    hide Coherent, RunCmd, Partition, FirstResult, CacheAfter, MemoryAfter, Faithful, Slice, Fetched, Consistent, Proceed, Laid,
      BlockStart, Parts;
    var task := s.TaskOf(t);
    HolderFits(blocks, base, s, t);
    ReadBlockStep(blocks, s.memory, s.mem, s.duration, task.et, task.id, turn, task.j);
    LastBlock(blocks, task.et, task.j);
    var r := RunCmd(s.mem, s.duration, NextCmd(task), turn);
    OneCommand(s.mem, s.duration, NextCmd(task), turn);
    var x := FirstResult(r);
    var s' := s.(mem := CacheAfter(s.mem, r.log), memory := MemoryAfter(s.memory, r.log));
    FetchProceeds(s', t, task, x);
    FetchedFits(base, task, x);
    FetchConsistent(blocks, base, s, t, s'.mem, Fetched(task, x));
    assert Happen(blocks, s, Advance(t, turn)) == Proceed(s', t, task, x);
  }

  lemma HolderFits(blocks: set<Block>, base: Memory, s: Shared, t: Thread)
    requires Consistent(blocks, base, s) && Writes(s.TaskOf(t))
    ensures var task := s.TaskOf(t);
            && s.lock == Some(t) && TaskFits(task, base, s.memory) && Coherent(blocks, s.mem, s.memory)
            && Laid(blocks, task.et) && task.j < Parts(task.et)
            && (task.Fetching? ==> s.memory == base && task.body == Slice(base, task.et.address, BlockStart(task.et, task.j)))
  {
    hide Coherent, Laid;
  }

  /** The lock holder moves on to `next`, or leaves. */
  lemma FetchConsistent(blocks: set<Block>, base: Memory, s: Shared, t: Thread, mem: MemMap, next: Task)
    requires Consistent(blocks, base, s) && s.TaskOf(t).Fetching? && Coherent(blocks, mem, base)
    requires TaskFits(next, base, base)
    requires !next.Resting? ==> Writes(next) && next.et == s.TaskOf(t).et && next.j < Parts(next.et)
    ensures Consistent(blocks, base, s.(tasks := s.tasks[t := next], lock := if next.Resting? then None else s.lock, mem := mem))
  {
    hide Coherent, Laid, Parts;
    var s' := s.(tasks := s.tasks[t := next], lock := if next.Resting? then None else s.lock, mem := mem);
    assert s.lock == Some(t) && s.memory == base && Laid(blocks, s.TaskOf(t).et);
    hide TaskFits;
    forall u: Thread
      ensures u != t ==> s'.TaskOf(u) == s.TaskOf(u)
    {
    }
  }

  /** The task of a fetching thread after the result x. */
  function Fetched(task: Task, x: FsmResult): Task
    requires task.Fetching?
  {
    var et, b := task.et, task.body + x.body;
    if x.err.Some? then Resting
    else if task.j + 1 < Parts(et) then task.(body := b, j := task.j + 1)
    else if |b| != et.blockLength || !Codecs.Sane(et) then Resting
    else
      match Codecs.Encode(et, b, task.v)
      case Done(c) => Storing(et, task.id, task.v, c, 0)
      case _ => Resting
  }

  lemma FetchProceeds(s: Shared, t: Thread, task: Task, x: FsmResult)
    requires task.Fetching?
    ensures var next := Fetched(task, x);
            && Proceed(s, t, task, x) ==
               Outcome(s.(tasks := s.tasks[t := next], lock := if next.Resting? then None else s.lock), [], None)
            && (!next.Resting? ==> Writes(next) && next.et == task.et && (next.j == task.j + 1 < Parts(next.et) || next.j == 0))
  {
    hide Codecs.Encode;
  }

  lemma LastBlock(blocks: set<Block>, et: EventType, j: nat)
    requires Laid(blocks, et) && j < Parts(et)
    ensures j + 1 == Parts(et) ==> BlockStart(et, j + 1) == et.blockLength
    ensures 0 < Parts(et)
  {
  }

  /** The task of the lock holder after one more block has been read. */
  lemma FetchedFits(base: Memory, task: Task, x: FsmResult)
    requires task.Fetching? && TaskFits(task, base, base) && 0 < Parts(task.et)
    requires x.err == None ==>
               Slice(base, task.et.address, BlockStart(task.et, task.j)) + x.body ==
               Slice(base, task.et.address, BlockStart(task.et, task.j + 1))
    requires task.j + 1 == Parts(task.et) ==> BlockStart(task.et, task.j + 1) == task.et.blockLength
    ensures TaskFits(Fetched(task, x), base, base)
  {
    hide Codecs.Encode, Slice, Store;
    var next := Fetched(task, x);
    if next.Storing? {
      StoreNothing(base, task.et.address);
      assert next.b[..0] == [];
      CounterSteps(task.et, 0);
    }
  }

  /** The thread with the lock writes one more block of the encoded buffer. */
  lemma StorerKeeps(blocks: set<Block>, base: Memory, s: Shared, t: Thread, turn: Turn)
    requires Partition(blocks) && Consistent(blocks, base, s) && s.TaskOf(t).Storing?
    requires Enabled(blocks, s, Advance(t, turn))
    ensures var o := Happen(blocks, s, Advance(t, turn));
            var task := s.TaskOf(t);
            && o.stop == None
            && o.actions == (if task.j + 1 < Parts(task.et) then [] else [Update(task.et, task.v)])
            && Consistent(blocks, if task.j + 1 < Parts(task.et) then base else Apply(base, Update(task.et, task.v)), o.next)
  {
    hide Coherent, RunCmd, CmdDone, Partition, FirstResult, CacheAfter, MemoryAfter, Faithful, Codecs.Encode, Store;
    var task := s.TaskOf(t);
    assert Laid(blocks, task.et);
    hide Laid;
    StoresBlock(blocks, base, s, task, turn);
    LastBlock(blocks, task.et, task.j);
    assert task.b[..|task.b|] == task.b;
    var o := Happen(blocks, s, Advance(t, turn));
    hide Happen, Enabled;
    forall u: Thread
      ensures u != t ==> o.next.TaskOf(u) == s.TaskOf(u)
    {
    }
  }

  lemma StoresBlock(blocks: set<Block>, base: Memory, s: Shared, task: Task, turn: Turn)
    requires task.Storing? && Laid(blocks, task.et)
    requires Partition(blocks) && Coherent(blocks, s.mem, s.memory) && Sound(task) && TaskFits(task, base, s.memory)
    requires var log := RunCmd(s.mem, s.duration, NextCmd(task), turn).log;
             Faithful(s.memory, log) && |log| == 1 && AllSucceed(log)
    ensures var log := RunCmd(s.mem, s.duration, NextCmd(task), turn).log;
            && Coherent(blocks, CacheAfter(s.mem, log), MemoryAfter(s.memory, log))
            && BlockStart(task.et, task.j + 1) <= |task.b|
            && MemoryAfter(s.memory, log) == Store(base, task.et.address, task.b[..BlockStart(task.et, task.j + 1)])
  {
    hide Coherent, RunCmd, Partition, CacheAfter, MemoryAfter, Faithful, Codecs.Encode, Store, Plus, AllSucceed, WellBlocked, Whole, IsWrite;
    var et, j, b := task.et, task.j, task.b;
    var cmd := WriteBlock(et, task.id, b, j);
    WriteBlockIsWhole(blocks, et, task.id, b, j);
    WriteOne(blocks, s.mem, s.memory, s.duration, cmd, turn);
    var i, n := BlockStart(et, j), BlockStart(et, j + 1);
    BlockInside(et, j);
    hide BlockStart;
    assert b[..n] == b[..i] + b[i..n];
    StoreStore(base, et.address, b[..i], b[i..n]);
  }

  lemma HappenKeeps(blocks: set<Block>, m: Memory, s: Shared, e: Event, past: seq<Update>)
    requires Partition(blocks) && Consistent(blocks, ApplyAll(m, past), s)
    ensures var o := Happen(blocks, s, e);
            o.stop == None && Consistent(blocks, ApplyAll(m, past + o.actions), o.next)
  {
    hide Consistent, ApplyAll, Apply, Enabled, Happen, Partition;
    var base := ApplyAll(m, past);
    assert past + [] == past;
    if !e.Advance? {
      StartKeeps(blocks, base, s, e);
    } else if !Enabled(blocks, s, e) {
      NothingHappens(blocks, s, e);
    } else {
      EnabledTask(blocks, s, e);
      match s.TaskOf(e.t) {
        case Viewing(_, _, _, _) => ReaderKeeps(blocks, base, s, e.t, e.turn);
        case Fetching(_, _, _, _, _) => FetcherKeeps(blocks, base, s, e.t, e.turn);
        case Storing(et, _, v, _, _) =>
          StorerKeeps(blocks, base, s, e.t, e.turn);
          ApplyLast(m, past, Update(et, v));
      }
    }
  }

  lemma NothingHappens(blocks: set<Block>, s: Shared, e: Event)
    requires !Enabled(blocks, s, e)
    ensures Happen(blocks, s, e) == Outcome(s, [], None)
  {
    hide Enabled;
  }

  lemma EnabledTask(blocks: set<Block>, s: Shared, e: Event)
    requires e.Advance? && Enabled(blocks, s, e)
    ensures !s.TaskOf(e.t).Resting?
  {
  }

  lemma ApplyLast(m: Memory, us: seq<Update>, u: Update)
    ensures ApplyAll(m, us + [u]) == Apply(ApplyAll(m, us), u)
  {
    hide Apply;
    assert (us + [u])[..|us|] == us;
  }

  ghost function Beginning(m: Memory, duration: int): Shared {
    Shared(map[], None, map[], m, duration)
  }

  /**
   * No lost updates: over every interleaving of any number of reads and writes, whenever the write
   * lock is free the controller's memory is the initial one with the encodings of the finished writes
   * applied one after another in the order of the lock. The cache stays coherent throughout.
   */
  lemma NoLostUpdates(blocks: set<Block>, m: Memory, duration: int, events: seq<Event>)
    requires Partition(blocks)
    ensures var step := (s: Shared, e: Event) => Happen(blocks, s, e);
            var r := Run(step, Beginning(m, duration), events);
            && r.stop == None
            && Coherent(blocks, r.next.mem, r.next.memory)
            && (r.next.lock == None ==> r.next.memory == ApplyAll(m, r.actions))
  {
    hide Happen, Consistent;
    var step := (s: Shared, e: Event) => Happen(blocks, s, e);
    var inv := (s: Shared, past: seq<Update>) => Consistent(blocks, ApplyAll(m, past), s);
    var fin := (s: Shared, past: seq<Update>) => false;
    BeginningFits(blocks, m, duration);
    forall s, past, e | inv(s, past)
      ensures Kept(step(s, e), past, inv, fin)
    {
      HappenKeeps(blocks, m, s, e, past);
    }
    RunKeeps(step, inv, fin, Beginning(m, duration), [], events);
    var r := Run(step, Beginning(m, duration), events);
    assert [] + r.actions == r.actions;
    ConsistentMeans(blocks, ApplyAll(m, r.actions), r.next);
  }

  lemma BeginningFits(blocks: set<Block>, m: Memory, duration: int)
    ensures Consistent(blocks, ApplyAll(m, []), Beginning(m, duration))
  {
    EmptyIsCoherent(blocks, m);
  }

  lemma ConsistentMeans(blocks: set<Block>, base: Memory, s: Shared)
    requires Consistent(blocks, base, s)
    ensures Coherent(blocks, s.mem, s.memory) && (s.lock == None ==> s.memory == base)
  {
  }

  // ------------------------------------------------- fields that share a byte

  /** A bit field that holds the value's bits after an update. */
  predicate IsField(u: Update) {
    && u.et.codec.ValueList? && 1 <= u.et.bitLength && u.et.bitPosition % 8 + u.et.bitLength <= 8
    && u.et.bitPosition / 8 < u.et.blockLength
    && u.v.Int? && 0 <= u.v.n < Pow2(u.et.bitLength)
  }

  /** The address of the byte that holds the field. */
  function FieldAddr(et: EventType): Addr {
    Plus(et.address, et.bitPosition / 8)
  }

  /** The fields lie in different bytes or in disjoint bits of one byte. */
  predicate Disjoint(x: EventType, y: EventType) {
    || FieldAddr(x) != FieldAddr(y)
    || x.bitPosition % 8 + x.bitLength <= y.bitPosition % 8
    || y.bitPosition % 8 + y.bitLength <= x.bitPosition % 8
  }

  function FieldValue(m: Memory, et: EventType): byte {
    Codec.GetField(m[FieldAddr(et)], et.bitPosition % 8, et.bitLength)
  }

  /** The number of a field is written as it is. */
  lemma FitsWord(u: Update)
    requires IsField(u)
    ensures Codec.ValueListNumber(u.v) == Done(u.v.n)
  {
    Codec.Pow2Of8();
    PowersGrow(u.et.bitLength, 8);
  }

  lemma {:induction false} PowersGrow(m: nat, n: nat)
    requires m <= n
    ensures Pow2(m) <= Pow2(n)
    decreases n
  {
    if m < n {
      PowersGrow(m, n - 1);
    }
  }

  /** What the field holds, in arithmetic on its byte. */
  lemma FieldValueIs(m: Memory, et: EventType)
    ensures FieldValue(m, et) == m[Plus(et.address, et.bitPosition / 8)] / Pow2(et.bitPosition % 8) % Pow2(et.bitLength)
  {
    Codec.FieldIs(m[FieldAddr(et)], et.bitPosition % 8, et.bitLength);
  }

  /** An update of a field changes one byte of the memory. */
  lemma ApplyField(m: Memory, u: Update)
    requires IsField(u)
    ensures var a, p, w := FieldAddr(u.et), u.et.bitPosition % 8, u.et.bitLength;
            Apply(m, u) == m[a := Codec.SetField(m[a], p, w, u.v.n)]
  {
    hide Codec.SetField, Pow2;
    var et, b := u.et, BufferOf(m, u.et);
    var pos := et.bitPosition / 8;
    var x := Codec.SetField(b[pos], et.bitPosition % 8, et.bitLength, u.v.n);
    FitsWord(u);
    assert Codecs.Encode(et, b, u.v) == Done(b[pos := x]);
    StoreOne(m, et.address, et.blockLength, pos, x);
  }

  lemma StoreOne(m: Memory, a: Addr, n: nat, k: nat, x: byte)
    requires k < n <= 0xff
    ensures Store(m, a, Slice(m, a, n)[k := x]) == m[Plus(a, k) := x]
  {
    OffsetPlus(a, k);
    var l, r := Store(m, a, Slice(m, a, n)[k := x]), m[Plus(a, k) := x];
    forall p: Addr
      ensures l[p] == r[p]
    {
      PlusOffset(a, p);
    }
  }

  lemma FieldIsSet(m: Memory, u: Update)
    requires IsField(u)
    ensures FieldValue(Apply(m, u), u.et) == u.v.n
  {
    ApplyField(m, u);
    hide Apply;
    var d := u.v.n;
    Codec.FieldReadsBack(m[FieldAddr(u.et)], u.et.bitPosition % 8, u.et.bitLength, d);
    LowBound(d, u.et.bitLength);
  }

  /** An update of any kind that stays inside its event, and whose event does not have the field's bits. */
  ghost predicate Spares(u: Update, et: EventType) {
    && Codecs.StaysInside(u.et, u.v, u.et.blockLength)
    && forall j: nat, k: nat ::
         (j < u.et.blockLength && Plus(u.et.address, j) == FieldAddr(et) &&
          et.bitPosition % 8 <= k < et.bitPosition % 8 + et.bitLength) ==> !Codecs.OwnsBit(u.et, j, k)
  }

  lemma FieldSurvives(m: Memory, u: Update, et: EventType)
    requires Spares(u, et) && 1 <= et.bitLength && et.bitPosition % 8 + et.bitLength <= 8
    ensures FieldValue(Apply(m, u), et) == FieldValue(m, et)
  {
    hide Codecs.Encode, Codecs.StaysInside, Codecs.OwnsBit, Store, Codec.GetField;
    var m', a := Apply(m, u), FieldAddr(et);
    if Codecs.Sane(u.et) && Codecs.Encode(u.et, BufferOf(m, u.et), u.v).Done? {
      StoreFrame(u.et, m, u.v);
      assert OnlyOwnBits(u.et, m, m');
      var j := Offset(u.et.address, a);
      PlusOffset(u.et.address, a);
      if j < u.et.blockLength {
        forall k: nat | et.bitPosition % 8 <= k < et.bitPosition % 8 + et.bitLength
          ensures Bit(m'[a], k) == Bit(m[a], k)
        {
          assert !Codecs.OwnsBit(u.et, j, k);
        }
        SameField(m[a], m'[a], et.bitPosition % 8, et.bitLength);
      }
    }
  }

  /** A field is its bits. */
  lemma SameField(x: byte, y: byte, p: nat, w: nat)
    requires p + w <= 8 && forall k: nat :: p <= k < p + w ==> Bit(x, k) == Bit(y, k)
    ensures Codec.GetField(x, p, w) == Codec.GetField(y, p, w)
  {
    forall k: nat | k < 8
      ensures Bit(Codec.GetField(y, p, w), k) == Bit(Codec.GetField(x, p, w), k)
    {
      Codec.GetFieldBits(y, p, w, k);
      Codec.GetFieldBits(x, p, w, k);
    }
    Codec.Pow2Of8();
    SameBits(Codec.GetField(y, p, w), Codec.GetField(x, p, w), 8);
  }

  /** Updates of other fields of the same byte are among them. */
  lemma DisjointSpares(u: Update, et: EventType)
    requires IsField(u) && Disjoint(et, u.et)
    ensures Spares(u, et)
  {
    FitsWord(u);
    Codec.SmallFits(u.v.n, u.et.bitPosition % 8, u.et.bitLength);
    forall j: nat, k: nat | j < u.et.blockLength && Plus(u.et.address, j) == FieldAddr(et) &&
                            et.bitPosition % 8 <= k < et.bitPosition % 8 + et.bitLength
      ensures !Codecs.OwnsBit(u.et, j, k)
    {
    }
  }

  /**
   * A written field survives: after any number of further updates of any kind that spare its bits it
   * still reads as the number written.
   */
  lemma {:induction false} FieldsAllSurvive(m: Memory, us: seq<Update>, i: nat)
    requires i < |us| && IsField(us[i])
    requires forall j :: i < j < |us| ==> Spares(us[j], us[i].et)
    ensures us[i].v.Int? && FieldValue(ApplyAll(m, us), us[i].et) == us[i].v.n
    decreases |us|
  {
    FieldShape(us[i]);
    hide FieldValue, Apply, IsField, Spares;
    var n := |us| - 1;
    if i == n {
      FieldIsSet(ApplyAll(m, us[..n]), us[n]);
    } else {
      FieldsAllSurvive(m, us[..n], i);
      FieldSurvives(ApplyAll(m, us[..n]), us[n], us[i].et);
    }
  }

  lemma FieldShape(u: Update)
    requires IsField(u)
    ensures u.v.Int? && 1 <= u.et.bitLength && u.et.bitPosition % 8 + u.et.bitLength <= 8
  {
  }
}
