/**
 * `procinfo` as evidently intended: line 32 reads the figures, fields 1 and 2,
 * out of the cached `(name, rss, vms)` triple instead of unpacking the whole
 * triple into two names. A cached pid whose two figures are both present keeps
 * its whole triple without a memory query; any other pid is queried and stored
 * under this pass's name.
 */
module IntendedCycle {
  import opened Wrappers
  import opened PyDict
  import opened Memory
  import opened ProcessCache

  /** Line 33 does not fire: both cached figures are present. */
  predicate Reusable(r: Record) {
    r.rss.Some? && r.vms.Some?
  }

  /** Line 33 fires: the pid is not cached (`.get` gives `None`s), or a cached figure is `None`. */
  predicate NeedsQuery(d: Cache, pid: Pid) {
    pid !in d.entries || !Reusable(d.entries[pid])
  }

  /** The loop on lines 29-37 with line 32 reading fields 1 and 2 of the cached triple. */
  function IntendedPass(acc: Pass, procs: seq<Proc>, mem: MemOracle): Result<Pass, Abort>
    decreases |procs|
  {
    if procs == [] then Success(acc)
    else
      var p := procs[0];
      if !NeedsQuery(acc.global, p.pid) then
        var acc' := Pass(acc.global, Put(acc.next, p.pid, acc.global.entries[p.pid]), acc.queried);
        IntendedPass(acc', procs[1..], mem)
      else
        match MemInfo(mem(p.pid))
        case Failure(_) => Failure(Abort(QueryRaised(p.pid), acc.global))
        case Success(f) =>
          var rec := Record(p.name, f.rss, f.vms);
          var acc' := Pass(Put(acc.global, p.pid, rec), Put(acc.next, p.pid, rec), acc.queried + [p.pid]);
          IntendedPass(acc', procs[1..], mem)
  }

  /**
   * One call of the intended `procinfo`; on completion line 40 publishes the
   * new generation, which lists each enumerated pid in enumeration order. The
   * only way the run can end early is a memory query of an enumerated pid that
   * raises `psutil.AccessDenied`.
   */
  function IntendedRefresh(prev: Cache, enum: seq<Proc>, mem: MemOracle): (r: Result<Generation, Abort>)
    ensures r.Success? && Distinct(Pids(enum)) ==> r.value.cache.order == Pids(enum)
    ensures r.Failure? ==>
      && r.error.fault.QueryRaised?
      && r.error.fault.pid in Pids(enum)
      && mem(r.error.fault.pid).AccessDenied?
  {
    var start := Pass(prev, Empty(), []);
    IntendedPassAbort(start, enum, mem);
    assert Distinct(Pids(enum)) && IntendedPass(start, enum, mem).Success? ==>
             IntendedPass(start, enum, mem).value.next.order == Pids(enum) by {
      if Distinct(Pids(enum)) {
        IntendedPassSpec(prev, start, enum, mem);
        if IntendedPass(start, enum, mem).Success? {
          assert start.next.order + Pids(enum) == Pids(enum);
        }
      }
    }
    match IntendedPass(start, enum, mem)
    case Success(acc) => Success(Generation(acc.next, acc.queried))
    case Failure(a) => Failure(a)
  }

  /** The intended loop ends early only at an enumerated pid whose memory query is refused. */
  lemma {:induction false} IntendedPassAbort(acc: Pass, procs: seq<Proc>, mem: MemOracle)
    ensures IntendedPass(acc, procs, mem).Failure? ==>
      && IntendedPass(acc, procs, mem).error.fault.QueryRaised?
      && IntendedPass(acc, procs, mem).error.fault.pid in Pids(procs)
      && mem(IntendedPass(acc, procs, mem).error.fault.pid).AccessDenied?
    decreases |procs|
  {
    if procs != [] {
      var p, tail := procs[0], procs[1..];
      assert procs == [p] + tail;
      assert Pids(procs) == [p.pid] + Pids(tail);
      if !NeedsQuery(acc.global, p.pid) {
        IntendedHeadReused(acc, p, tail, mem);
        IntendedPassAbort(Pass(acc.global, Put(acc.next, p.pid, acc.global.entries[p.pid]), acc.queried), tail, mem);
      } else {
        IntendedHeadQueried(acc, p, tail, mem);
        if !mem(p.pid).AccessDenied? {
          var f := FreshRecord(p, mem);
          IntendedPassAbort(Pass(Put(acc.global, p.pid, f), Put(acc.next, p.pid, f), acc.queried + [p.pid]), tail, mem);
        }
      }
    }
  }

  /** No process that has to be queried makes its memory query raise. */
  ghost predicate QueriesAllowed(prev: Cache, procs: seq<Proc>, mem: MemOracle) {
    forall i | 0 <= i < |procs| :: NeedsQuery(prev, procs[i].pid) ==> !mem(procs[i].pid).AccessDenied?
  }

  /** Reference: the record a pass should publish for `p`, judged against the previous cache. */
  ghost function Expected(prev: Cache, p: Proc, mem: MemOracle): Record
    requires NeedsQuery(prev, p.pid) ==> !mem(p.pid).AccessDenied?
  {
    if NeedsQuery(prev, p.pid) then FreshRecord(p, mem) else prev.entries[p.pid]
  }

  /** Reference: the pids a pass should query, in enumeration order. */
  function Queried(prev: Cache, procs: seq<Proc>): seq<Pid> {
    if procs == [] then []
    else (if NeedsQuery(prev, procs[0].pid) then [procs[0].pid] else []) + Queried(prev, procs[1..])
  }

  /** `g` holds the same entries as `prev` for every pid of `procs`. */
  ghost predicate AgreeOn(g: Cache, prev: Cache, procs: seq<Proc>) {
    forall i | 0 <= i < |procs| ::
      && (procs[i].pid in g.entries <==> procs[i].pid in prev.entries)
      && (procs[i].pid in g.entries ==> g.entries[procs[i].pid] == prev.entries[procs[i].pid])
  }

  /**
   * `out` is what the loop should reach from `base` after `procs`: the new
   * generation gains each process of `procs`, in order, with its expected
   * record, keeps what it already held, and only the processes that needed it
   * were queried.
   */
  ghost predicate Publishes(prev: Cache, base: Pass, procs: seq<Proc>, mem: MemOracle, out: Pass)
    requires QueriesAllowed(prev, procs, mem)
  {
    && out.next.order == base.next.order + Pids(procs)
    && (forall k | k in base.next.entries :: k in out.next.entries && out.next.entries[k] == base.next.entries[k])
    && (forall i | 0 <= i < |procs| ::
          procs[i].pid in out.next.entries && out.next.entries[procs[i].pid] == Expected(prev, procs[i], mem))
    && out.queried == base.queried + Queried(prev, procs)
  }

  lemma IntendedHeadReused(acc: Pass, p: Proc, tail: seq<Proc>, mem: MemOracle)
    requires !NeedsQuery(acc.global, p.pid)
    ensures IntendedPass(acc, [p] + tail, mem)
         == IntendedPass(Pass(acc.global, Put(acc.next, p.pid, acc.global.entries[p.pid]), acc.queried), tail, mem)
  {
    assert ([p] + tail)[0] == p;
    assert ([p] + tail)[1..] == tail;
  }

  lemma IntendedHeadQueried(acc: Pass, p: Proc, tail: seq<Proc>, mem: MemOracle)
    requires NeedsQuery(acc.global, p.pid)
    ensures mem(p.pid).AccessDenied? ==>
              IntendedPass(acc, [p] + tail, mem) == Failure(Abort(QueryRaised(p.pid), acc.global))
    ensures !mem(p.pid).AccessDenied? ==>
              var f := FreshRecord(p, mem);
              IntendedPass(acc, [p] + tail, mem)
              == IntendedPass(Pass(Put(acc.global, p.pid, f), Put(acc.next, p.pid, f), acc.queried + [p.pid]), tail, mem)
  {
    assert ([p] + tail)[0] == p;
    assert ([p] + tail)[1..] == tail;
  }

  /** Putting the first process's record in front of what the rest publishes. */
  lemma PublishesCons(prev: Cache, acc: Pass, acc': Pass, p: Proc, tail: seq<Proc>, mem: MemOracle, out: Pass)
    requires QueriesAllowed(prev, [p] + tail, mem)
    requires QueriesAllowed(prev, tail, mem)
    requires NeedsQuery(prev, p.pid) ==> !mem(p.pid).AccessDenied?
    requires p.pid !in acc.next.entries
    requires acc'.next == Put(acc.next, p.pid, Expected(prev, p, mem))
    requires acc'.queried == acc.queried + (if NeedsQuery(prev, p.pid) then [p.pid] else [])
    requires Publishes(prev, acc', tail, mem, out)
    ensures Publishes(prev, acc, [p] + tail, mem, out)
  {
    var procs := [p] + tail;
    assert procs[0] == p && procs[1..] == tail;
    AppendPid(acc.next.order, p, tail);
    ConsQueried(prev, acc.queried, p, tail, out.queried);
    ConsEntries(prev, acc.next, p, tail, mem, out.next);
  }


  lemma ConsQueried(prev: Cache, q: seq<Pid>, p: Proc, tail: seq<Proc>, out: seq<Pid>)
    requires out == (q + (if NeedsQuery(prev, p.pid) then [p.pid] else [])) + Queried(prev, tail)
    ensures out == q + Queried(prev, [p] + tail)
  {
    assert ([p] + tail)[1..] == tail;
  }

  lemma ConsEntries(prev: Cache, next: Cache, p: Proc, tail: seq<Proc>, mem: MemOracle, out: Cache)
    requires QueriesAllowed(prev, [p] + tail, mem)
    requires QueriesAllowed(prev, tail, mem)
    requires NeedsQuery(prev, p.pid) ==> !mem(p.pid).AccessDenied?
    requires p.pid !in next.entries
    requires var next' := Put(next, p.pid, Expected(prev, p, mem));
      && (forall k | k in next'.entries :: k in out.entries && out.entries[k] == next'.entries[k])
      && (forall i | 0 <= i < |tail| ::
            tail[i].pid in out.entries && out.entries[tail[i].pid] == Expected(prev, tail[i], mem))
    ensures forall k | k in next.entries :: k in out.entries && out.entries[k] == next.entries[k]
    ensures forall i | 0 <= i < |[p] + tail| ::
              && ([p] + tail)[i].pid in out.entries
              && out.entries[([p] + tail)[i].pid] == Expected(prev, ([p] + tail)[i], mem)
  {
    var procs := [p] + tail;
    forall i | 0 <= i < |procs|
      ensures procs[i].pid in out.entries && out.entries[procs[i].pid] == Expected(prev, procs[i], mem)
    {
      if i > 0 {
        assert procs[i] == tail[i - 1];
      }
    }
  }

  /** The intended loop, judged against the previous cache it started from. */
  lemma {:induction false} IntendedPassSpec(prev: Cache, acc: Pass, procs: seq<Proc>, mem: MemOracle)
    requires Distinct(Pids(procs))
    requires AgreeOn(acc.global, prev, procs)
    requires forall i | 0 <= i < |procs| :: procs[i].pid !in acc.next.entries
    ensures IntendedPass(acc, procs, mem).Success? <==> QueriesAllowed(prev, procs, mem)
    ensures IntendedPass(acc, procs, mem).Success? ==> Publishes(prev, acc, procs, mem, IntendedPass(acc, procs, mem).value)
    decreases |procs|
  {
    if procs == [] {
      assert acc.next.order + Pids(procs) == acc.next.order;
      assert acc.queried + Queried(prev, procs) == acc.queried;
    } else {
      var p, tail := procs[0], procs[1..];
      assert procs == [p] + tail;
      assert NeedsQuery(acc.global, p.pid) == NeedsQuery(prev, p.pid);
      var acc': Pass;
      if !NeedsQuery(prev, p.pid) {
        IntendedHeadReused(acc, p, tail, mem);
        acc' := Pass(acc.global, Put(acc.next, p.pid, acc.global.entries[p.pid]), acc.queried);
        StepKeepsInvariant(prev, acc, p, tail, false, acc.global.entries[p.pid], acc.global.entries[p.pid], acc');
      } else {
        IntendedHeadQueried(acc, p, tail, mem);
        if mem(p.pid).AccessDenied? {
          assert !QueriesAllowed(prev, procs, mem);
          return;
        }
        var f := FreshRecord(p, mem);
        acc' := Pass(Put(acc.global, p.pid, f), Put(acc.next, p.pid, f), acc.queried + [p.pid]);
        StepKeepsInvariant(prev, acc, p, tail, true, f, f, acc');
      }
      IntendedPassSpec(prev, acc', tail, mem);
      assert QueriesAllowed(prev, procs, mem) <==> QueriesAllowed(prev, tail, mem);
      if QueriesAllowed(prev, procs, mem) {
        PublishesCons(prev, acc, acc', p, tail, mem, IntendedPass(acc', tail, mem).value);
      }
    }
  }

  /**
   * One step of the intended loop keeps the loop's invariant for the rest of
   * the enumeration: the remaining pids are distinct, `procdata` still agrees
   * with the previous cache on them, and none of them is in `newprocdata` yet.
   */
  lemma StepKeepsInvariant(prev: Cache, acc: Pass, p: Proc, tail: seq<Proc>, wrote: bool, w: Record, v: Record, acc': Pass)
    requires Distinct(Pids([p] + tail))
    requires AgreeOn(acc.global, prev, [p] + tail)
    requires forall i | 0 <= i < |[p] + tail| :: ([p] + tail)[i].pid !in acc.next.entries
    requires acc'.global == (if wrote then Put(acc.global, p.pid, w) else acc.global)
    requires acc'.next == Put(acc.next, p.pid, v)
    ensures Distinct(Pids(tail))
    ensures AgreeOn(acc'.global, prev, tail)
    ensures forall i | 0 <= i < |tail| :: tail[i].pid !in acc'.next.entries
  {
    var procs := [p] + tail;
    PidsCons(p, tail);
    assert procs[1..] == tail;
    DistinctTail(Pids(procs));
    forall i | 0 <= i < |tail|
      ensures tail[i].pid != p.pid && tail[i] == procs[i + 1]
    {
      assert Pids(procs)[0] != Pids(procs)[i + 1];
    }
    AgreeOnTail(acc.global, prev, p, tail);
    if wrote {
      PutElsewhereAgrees(acc.global, p.pid, w, prev, tail);
    }
    PutElsewhereAbsent(acc.next, p.pid, v, tail);
  }

  lemma AgreeOnTail(g: Cache, prev: Cache, p: Proc, tail: seq<Proc>)
    requires AgreeOn(g, prev, [p] + tail)
    ensures AgreeOn(g, prev, tail)
  {
    forall i | 0 <= i < |tail|
      ensures tail[i] == ([p] + tail)[i + 1]
    {
    }
  }

  /** Writing a pid that `tail` does not list keeps `g` agreeing with `prev` on `tail`. */
  lemma PutElsewhereAgrees(g: Cache, k: Pid, v: Record, prev: Cache, tail: seq<Proc>)
    requires AgreeOn(g, prev, tail)
    requires forall i | 0 <= i < |tail| :: tail[i].pid != k
    ensures AgreeOn(Put(g, k, v), prev, tail)
  {
  }

  /** Writing a pid that `tail` does not list leaves the pids of `tail` absent. */
  lemma PutElsewhereAbsent(n: Cache, k: Pid, v: Record, tail: seq<Proc>)
    requires forall i | 0 <= i < |tail| :: tail[i].pid !in n.entries && tail[i].pid != k
    ensures forall i | 0 <= i < |tail| :: tail[i].pid !in Put(n, k, v).entries
  {
  }

  lemma DistinctTail<T>(s: seq<T>)
    requires |s| > 0 && Distinct(s)
    ensures Distinct(s[1..])
  {
    forall i, j | 0 <= i < j < |s| - 1
      ensures s[1..][i] != s[1..][j]
    {
      assert s[i + 1] != s[j + 1];
    }
  }

  /**
   * The intended pass, with the operating system listing each pid once:
   * it completes exactly when no memory query it makes raises, and then the
   * new generation lists the enumerated pids in enumeration order, each with
   * its expected record, and exactly the pids that needed it were queried.
   */
  lemma IntendedRefreshSpec(prev: Cache, enum: seq<Proc>, mem: MemOracle)
    requires Distinct(Pids(enum))
    ensures IntendedRefresh(prev, enum, mem).Success? <==> QueriesAllowed(prev, enum, mem)
    ensures IntendedRefresh(prev, enum, mem).Success? ==>
      var g := IntendedRefresh(prev, enum, mem).value;
      && g.cache.order == Pids(enum)
      && (forall i | 0 <= i < |enum| :: g.cache.entries[enum[i].pid] == Expected(prev, enum[i], mem))
      && g.queried == Queried(prev, enum)
  {
    var acc := Pass(prev, Empty(), []);
    IntendedPassSpec(prev, acc, enum, mem);
    if QueriesAllowed(prev, enum, mem) {
      assert acc.next.order + Pids(enum) == Pids(enum);
      assert acc.queried + Queried(prev, enum) == Queried(prev, enum);
    }
  }

  /**
   * Drop: a completed intended pass holds exactly the enumerated pids, so a pid
   * of the previous cache that is no longer enumerated leaves no entry behind.
   */
  lemma IntendedKeepsExactlyEnumerated(prev: Cache, enum: seq<Proc>, mem: MemOracle, pid: Pid)
    requires Distinct(Pids(enum))
    requires IntendedRefresh(prev, enum, mem).Success?
    ensures pid in IntendedRefresh(prev, enum, mem).value.cache.entries <==> pid in Pids(enum)
    ensures pid in prev.entries && pid !in Pids(enum) ==> pid !in IntendedRefresh(prev, enum, mem).value.cache.entries
  {
    IntendedRefreshSpec(prev, enum, mem);
    var g := IntendedRefresh(prev, enum, mem).value;
    assert pid in g.cache.entries <==> pid in g.cache.order;
  }

  /** The pids the pass queries are exactly the enumerated pids that need a query. */
  lemma {:induction false} QueriedExactly(prev: Cache, procs: seq<Proc>, pid: Pid)
    ensures pid in Queried(prev, procs) <==> pid in Pids(procs) && NeedsQuery(prev, pid)
  {
    if procs != [] {
      QueriedExactly(prev, procs[1..], pid);
      assert Pids(procs) == [procs[0].pid] + Pids(procs[1..]);
    }
  }

  /**
   * Reuse: a cached pid whose rss and vms are both present keeps its old triple
   * verbatim, old name included, and its memory is not queried.
   */
  lemma IntendedReuse(prev: Cache, enum: seq<Proc>, mem: MemOracle, i: nat)
    requires Distinct(Pids(enum))
    requires IntendedRefresh(prev, enum, mem).Success?
    requires i < |enum| && enum[i].pid in prev.entries && Reusable(prev.entries[enum[i].pid])
    ensures var g := IntendedRefresh(prev, enum, mem).value;
      && enum[i].pid in g.cache.entries
      && g.cache.entries[enum[i].pid] == prev.entries[enum[i].pid]
      && enum[i].pid !in g.queried
  {
    IntendedRefreshSpec(prev, enum, mem);
    QueriedExactly(prev, enum, enum[i].pid);
    assert enum[i].pid in Pids(enum);
  }

  /**
   * Any other enumerated pid, a first sighting or a cached one with a `None`
   * figure, is queried and stored under this pass's name with `meminfo`'s figures.
   */
  lemma IntendedRequery(prev: Cache, enum: seq<Proc>, mem: MemOracle, i: nat)
    requires Distinct(Pids(enum))
    requires IntendedRefresh(prev, enum, mem).Success?
    requires i < |enum| && NeedsQuery(prev, enum[i].pid)
    ensures var g := IntendedRefresh(prev, enum, mem).value;
      && enum[i].pid in g.cache.entries
      && enum[i].pid in g.queried
      && g.cache.entries[enum[i].pid].name == enum[i].name
      && MemInfo(mem(enum[i].pid))
         == Success(Figures(g.cache.entries[enum[i].pid].rss, g.cache.entries[enum[i].pid].vms))
  {
    IntendedRefreshSpec(prev, enum, mem);
    QueriedExactly(prev, enum, enum[i].pid);
    assert enum[i].pid in Pids(enum);
  }

  /**
   * A process that vanished between enumeration and its memory query is kept
   * in the new generation as `(name, None, None)`, not omitted.
   */
  lemma IntendedKeepsVanished(prev: Cache, enum: seq<Proc>, mem: MemOracle, i: nat)
    requires Distinct(Pids(enum))
    requires IntendedRefresh(prev, enum, mem).Success?
    requires i < |enum| && NeedsQuery(prev, enum[i].pid) && mem(enum[i].pid).NoSuchProcess?
    ensures var g := IntendedRefresh(prev, enum, mem).value;
      enum[i].pid in g.cache.entries && g.cache.entries[enum[i].pid] == Record(enum[i].name, None, None)
  {
    IntendedRequery(prev, enum, mem, i);
    var g := IntendedRefresh(prev, enum, mem).value;
    VanishedRecord(g.cache.entries[enum[i].pid], enum[i].name, mem(enum[i].pid));
  }

  /** A record whose figures came from `meminfo` on a vanished process holds no figures. */
  lemma VanishedRecord(r: Record, name: string, q: MemQuery)
    requires q.NoSuchProcess? && r.name == name && MemInfo(q) == Success(Figures(r.rss, r.vms))
    ensures r == Record(name, None, None)
  {
  }
}
