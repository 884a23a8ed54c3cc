/**
 * The sampling loop: `procinfo` runs, and on completion line 42 schedules the
 * next run. An exception ends the run before line 42, so the loop stops for
 * good and `procdata` keeps whatever the failed run left in it.
 */
module Sampler {
  import opened Wrappers
  import opened PyDict
  import opened ProcessCache
  import opened LiteralCycle
  import opened IntendedCycle

  /** The sampling loop: still rescheduling itself, or stopped by an exception. */
  datatype Loop =
    | Running(procdata: Cache)
    | Stopped(procdata: Cache, fault: Fault)

  /** Line 9: the loop starts with an empty `procdata`. */
  function Start(): (s: Loop)
    ensures s.Running? && s.procdata.entries == map[]
  {
    Running(Empty())
  }

  /**
   * One scheduled run of `procinfo` as written. A completed run replaces
   * `procdata` by a fresh sample of the enumeration; an aborted run stops the
   * loop at an enumerated pid and keeps every entry `procdata` held before.
   */
  function LiteralStep(s: Loop, enum: seq<Proc>, mem: MemOracle): (t: Loop)
    ensures s.Stopped? ==> t == s
    ensures s.Running? ==> (t.Running? <==> Admissible(s.procdata, enum, mem))
    ensures s.Running? && t.Running? ==>
      && t.procdata.order == Pids(enum)
      && forall i | 0 <= i < |enum| ::
           && !mem(enum[i].pid).AccessDenied?
           && enum[i].pid in t.procdata.entries
           && t.procdata.entries[enum[i].pid] == FreshRecord(enum[i], mem)
    ensures s.Running? && t.Stopped? ==>
      && t.fault.pid in Pids(enum)
      && forall k | k in s.procdata.entries ::
           k in t.procdata.entries && t.procdata.entries[k] == s.procdata.entries[k]
  {
    match s
    case Stopped(_, _) => s
    case Running(c) =>
      LiteralSucceedsIff(c, enum, mem);
      match LiteralRefresh(c, enum, mem)
      case Success(g) =>
        LiteralGenerationRecords(c, enum, mem);
        Running(g.cache)
      case Failure(a) => Stopped(a.global, a.fault)
  }

  /**
   * One scheduled run of the intended `procinfo`. A completed run replaces
   * `procdata` by the enumerated pids in order, each with the record expected
   * against the old `procdata`; the loop stops only on a refused memory query.
   */
  function IntendedStep(s: Loop, enum: seq<Proc>, mem: MemOracle): (t: Loop)
    requires Distinct(Pids(enum))
    ensures s.Stopped? ==> t == s
    ensures s.Running? ==> (t.Running? <==> QueriesAllowed(s.procdata, enum, mem))
    ensures s.Running? && t.Running? ==>
      && t.procdata.order == Pids(enum)
      && forall i | 0 <= i < |enum| ::
           && (NeedsQuery(s.procdata, enum[i].pid) ==> !mem(enum[i].pid).AccessDenied?)
           && enum[i].pid in t.procdata.entries
           && t.procdata.entries[enum[i].pid] == Expected(s.procdata, enum[i], mem)
    ensures s.Running? && t.Stopped? ==>
      t.fault.QueryRaised? && t.fault.pid in Pids(enum) && mem(t.fault.pid).AccessDenied?
  {
    match s
    case Stopped(_, _) => s
    case Running(c) =>
      IntendedRefreshSpec(c, enum, mem);
      match IntendedRefresh(c, enum, mem)
      case Success(g) => Running(g.cache)
      case Failure(a) => Stopped(a.global, a.fault)
  }

  /**
   * As written, the loop cannot survive a second run in which any process of
   * the first is still alive: that pid is cached, line 32 raises, and line 42
   * is never reached again.
   */
  lemma LiteralStopsOnSecondRun(enum1: seq<Proc>, mem1: MemOracle, enum2: seq<Proc>, mem2: MemOracle, j: nat)
    requires Admissible(Empty(), enum1, mem1)
    requires j < |enum2| && enum2[j].pid in Pids(enum1)
    ensures LiteralStep(Start(), enum1, mem1).Running?
    ensures LiteralStep(LiteralStep(Start(), enum1, mem1), enum2, mem2).Stopped?
  {
    var c := Empty<Pid, Record>();
    LiteralSucceedsIff(c, enum1, mem1);
    LiteralGeneration(c, enum1, mem1);
    var g := LiteralRefresh(c, enum1, mem1).value;
    assert enum2[j].pid in g.cache.entries;
    LiteralFailsOnAnyCachedPid(g.cache, enum2, mem2, j);
  }

  /**
   * The intended loop keeps running through any sequence of runs in which no
   * memory query that has to be made is refused.
   */
  lemma {:induction false} IntendedKeepsRunning(s: Loop, enums: seq<seq<Proc>>, mems: seq<MemOracle>)
    requires s.Running? && |enums| == |mems|
    requires forall n | 0 <= n < |enums| :: Distinct(Pids(enums[n]))
    requires forall n | 0 <= n < |enums| :: forall pid :: !mems[n](pid).AccessDenied?
    ensures IntendedRun(s, enums, mems).Running?
    decreases |enums|
  {
    if enums != [] {
      var t := IntendedStep(s, enums[0], mems[0]);
      assert QueriesAllowed(s.procdata, enums[0], mems[0]);
      IntendedKeepsRunning(t, enums[1..], mems[1..]);
    }
  }

  /** A sequence of scheduled runs of the intended `procinfo`. */
  function IntendedRun(s: Loop, enums: seq<seq<Proc>>, mems: seq<MemOracle>): (t: Loop)
    requires |enums| == |mems|
    requires forall n | 0 <= n < |enums| :: Distinct(Pids(enums[n]))
    ensures s.Stopped? ==> t == s
    decreases |enums|
  {
    if enums == [] then s
    else IntendedRun(IntendedStep(s, enums[0], mems[0]), enums[1..], mems[1..])
  }
}
