/** Concurrent reads and writes over a run of the engine: no lost updates in the controller's own memory. */
module Concurrency {
  import opened Bytes
  import opened Telegram
  import opened Events
  import opened Runs
  import opened Engine
  import opened EngineSafety
  import opened Refinement
  import opened Commands
  import opened Cache
  import opened BlockAccess
  import opened RoundTrip
  import EndToEnd
  import I = Interleaving
  import Codecs

  /** The threads with their lock and cache, and the engine with the controller. */
  datatype Site = Site(shared: I.Shared, world: World)

  /** An event, and what the engine does meanwhile. */
  datatype Happening = Happening(e: I.Event, moves: seq<Move>)

  /** The engine carries the exchanges of the thread's next command; those of writes are answered. */
  ghost predicate Carries(blocks: set<Block>, s: Site, h: Happening) {
    match h.e
    case Advance(t, turn) =>
      var task := s.shared.TaskOf(t);
      && !task.Resting? && I.Sound(task)
      && var log := RunCmd(s.shared.mem, s.shared.duration, I.NextCmd(task), turn).log;
         Carried(log, Run(Tick, s.world, h.moves).actions) && (task.Storing? ==> |log| == 1)
    case _ => I.Enabled(blocks, s.shared, h.e)
  }

  ghost function Happen(blocks: set<Block>, s: Site, h: Happening): Outcome<Site, I.Update, ()> {
    if !Carries(blocks, s, h) then Outcome(s, [], None)
    else
      var o := I.Happen(blocks, s.shared, h.e);
      var world := if h.e.Advance? then Run(Tick, s.world, h.moves).next else s.world;
      Outcome(Site(o.next, world), o.actions, o.stop)
  }

  ghost predicate Holds(blocks: set<Block>, base: Memory, s: Site) {
    I.Consistent(blocks, base, s.shared) && Quiet(s.world) && s.shared.memory == s.world.mem
  }

  /** What the engine carries is faithful, so the event may happen, and both memories go the same way. */
  lemma AdvanceIsEnabled(blocks: set<Block>, base: Memory, s: Site, h: Happening)
    requires Partition(blocks) && Holds(blocks, base, s) && h.e.Advance? && Carries(blocks, s, h)
    ensures I.Enabled(blocks, s.shared, h.e)
    ensures var r := Run(Tick, s.world, h.moves);
            Quiet(r.next) && I.Happen(blocks, s.shared, h.e).next.memory == r.next.mem
  {
    hide I.Consistent, Partition, Quiet, Tick, Carried, RunCmd, I.NextCmd, I.Sound, Faithful, MemoryAfter, AllSucceed;
    CarriedIsFaithful(blocks, base, s, h);
    MemoryFollows(blocks, s.shared, h.e);
  }

  /** The exchanges of the thread's next command. */
  ghost function LogOf(s: I.Shared, t: I.Thread, turn: Turn): seq<Exchange>
    requires !s.TaskOf(t).Resting? && I.Sound(s.TaskOf(t))
  {
    RunCmd(s.mem, s.duration, I.NextCmd(s.TaskOf(t)), turn).log
  }

  lemma CarriedIsFaithful(blocks: set<Block>, base: Memory, s: Site, h: Happening)
    requires Partition(blocks) && Holds(blocks, base, s) && h.e.Advance? && Carries(blocks, s, h)
    ensures var log := LogOf(s.shared, h.e.t, h.e.turn);
            var r := Run(Tick, s.world, h.moves);
            Faithful(s.shared.memory, log) && AllSucceed(log) && Quiet(r.next) && MemoryAfter(s.shared.memory, log) == r.next.mem
  {
    hide I.Consistent, Partition, Quiet, Tick, Carried, RunCmd, Whole, EndToEnd.AllWhole, AllFit, I.NextCmd, WellBlocked, Faithful, MemoryAfter;
    var log := LogOf(s.shared, h.e.t, h.e.turn);
    var cmd := I.NextCmd(s.shared.TaskOf(h.e.t));
    TaskIsWhole(blocks, base, s.shared, h.e.t);
    EndToEnd.CommandIsWhole(blocks, s.shared.mem, s.shared.duration, cmd, h.e.turn);
    EndToEnd.AllWholeFits(blocks, log);
    EngineIsFaithful(s.world, h.moves, log);
  }

  lemma MemoryFollows(blocks: set<Block>, s: I.Shared, e: I.Event)
    requires e.Advance? && I.Enabled(blocks, s, e)
    ensures I.Happen(blocks, s, e).next.memory == MemoryAfter(s.memory, LogOf(s, e.t, e.turn))
  {
    hide RunCmd, I.NextCmd, Faithful, MemoryAfter, CacheAfter, Codecs.Encode, I.Sound;
  }

  lemma TaskIsWhole(blocks: set<Block>, base: Memory, s: I.Shared, t: I.Thread)
    requires I.Consistent(blocks, base, s) && !s.TaskOf(t).Resting? && I.Sound(s.TaskOf(t))
    ensures Whole(blocks, I.NextCmd(s.TaskOf(t)))
  {
    hide Coherent, Laid, Whole, WellBlocked, Codecs.Sane;
    var task := s.TaskOf(t);
    assert Laid(blocks, task.et) && task.j < Parts(task.et);
    match task {
      case Viewing(et, id, _, j) => ReadBlockIsWhole(blocks, et, id, j);
      case Fetching(et, id, _, _, j) => ReadBlockIsWhole(blocks, et, id, j);
      case Storing(et, id, _, b, j) => WriteBlockIsWhole(blocks, et, id, b, j);
    }
  }

  lemma HappenKeeps(blocks: set<Block>, m: Memory, s: Site, h: Happening, past: seq<I.Update>)
    requires Partition(blocks) && Holds(blocks, I.ApplyAll(m, past), s)
    ensures var o := Happen(blocks, s, h);
            o.stop == None && Holds(blocks, I.ApplyAll(m, past + o.actions), o.next)
  {
    hide I.Consistent, I.ApplyAll, Partition, Quiet, Tick, I.Happen, I.Enabled;
    if Carries(blocks, s, h) {
      I.HappenKeeps(blocks, m, s.shared, h.e, past);
      if h.e.Advance? {
        AdvanceIsEnabled(blocks, I.ApplyAll(m, past), s, h);
      } else {
        StartingIsSilent(blocks, s.shared, h.e);
      }
    } else {
      assert past + [] == past;
    }
  }

  lemma StartingIsSilent(blocks: set<Block>, s: I.Shared, e: I.Event)
    requires !e.Advance?
    ensures I.Happen(blocks, s, e).next.memory == s.memory
  {
  }

  function Beginning(m: Memory, now: int, duration: int): Site {
    Site(I.Shared(map[], None, map[], m, duration), World(Start(true, now), m))
  }

  /**
   * No lost updates, down to the bytes on the line: over every interleaving whose exchanges a run of the
   * engine carries from its start, the cache agrees with the controller, and whenever the write lock is
   * free the controller's memory is what the finished writes make of the initial one, one after another in
   * the order of the lock.
   */
  lemma NoLostUpdatesOverTheWire(blocks: set<Block>, m: Memory, now: int, duration: int, events: seq<Happening>)
    requires Partition(blocks)
    ensures var step := (s: Site, h: Happening) => Happen(blocks, s, h);
            var r := Run(step, Beginning(m, now, duration), events);
            && r.stop == None && Quiet(r.next.world)
            && Coherent(blocks, r.next.shared.mem, r.next.world.mem)
            && (r.next.shared.lock == None ==> r.next.world.mem == I.ApplyAll(m, r.actions))
  {
    hide Happen, Holds;
    var step := (s: Site, h: Happening) => Happen(blocks, s, h);
    var inv := (s: Site, past: seq<I.Update>) => Holds(blocks, I.ApplyAll(m, past), s);
    var fin := (s: Site, past: seq<I.Update>) => false;
    BeginningHolds(blocks, m, now, duration);
    forall s, past, h | inv(s, past)
      ensures Kept(step(s, h), past, inv, fin)
    {
      HappenKeeps(blocks, m, s, h, past);
    }
    RunKeeps(step, inv, fin, Beginning(m, now, duration), [], events);
    var r := Run(step, Beginning(m, now, duration), events);
    assert [] + r.actions == r.actions;
    HoldsMeans(blocks, I.ApplyAll(m, r.actions), r.next);
  }

  lemma BeginningHolds(blocks: set<Block>, m: Memory, now: int, duration: int)
    ensures Holds(blocks, I.ApplyAll(m, []), Beginning(m, now, duration))
  {
    hide I.Consistent, Quiet;
    I.BeginningFits(blocks, m, duration);
    StartFits(m, now);
  }

  lemma HoldsMeans(blocks: set<Block>, base: Memory, s: Site)
    requires Holds(blocks, base, s)
    ensures Quiet(s.world) && Coherent(blocks, s.shared.mem, s.world.mem) && (s.shared.lock == None ==> s.world.mem == base)
  {
    hide I.Consistent, Quiet, Coherent;
    I.ConsistentMeans(blocks, base, s.shared);
  }
}
