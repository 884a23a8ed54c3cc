/**
 * `procinfo` exactly as written. Line 32 unpacks `procdata.get(pid, (None, None))`
 * into two names, but a cached value is the triple `(name, rss, vms)`, so any pid
 * that is already cached raises `ValueError` there. The exception ends the pass
 * before the publish on line 40 and before the reschedule on line 42, leaving
 * behind whatever line 36 already wrote into `procdata`.
 */
module LiteralCycle {
  import opened Wrappers
  import opened PyDict
  import opened Memory
  import opened ProcessCache

  /** The loop on lines 29-37, one enumerated process per step. */
  function LiteralPass(acc: Pass, procs: seq<Proc>, mem: MemOracle): Result<Pass, Abort>
    decreases |procs|
  {
    if procs == [] then Success(acc)
    else
      var p := procs[0];
      if p.pid in acc.global.entries then
        Failure(Abort(UnpackError(p.pid), acc.global))
      else
        match MemInfo(mem(p.pid))
        case Failure(_) => Failure(Abort(QueryRaised(p.pid), acc.global))
        case Success(f) =>
          var rec := Record(p.name, f.rss, f.vms);
          var acc' := Pass(Put(acc.global, p.pid, rec), Put(acc.next, p.pid, rec), acc.queried + [p.pid]);
          LiteralPass(acc', procs[1..], mem)
  }

  /**
   * One call of `procinfo`: run the loop from the current `procdata` and an
   * empty `newprocdata`. A completed run publishes every enumerated pid in
   * enumeration order, each one queried; an aborted run names an enumerated
   * pid and leaves every entry `procdata` held before untouched.
   */
  function LiteralRefresh(prev: Cache, enum: seq<Proc>, mem: MemOracle): (r: Result<Generation, Abort>)
    ensures r.Success? ==> r.value.cache.order == Pids(enum) && r.value.queried == Pids(enum)
    ensures r.Failure? ==> r.error.fault.pid in Pids(enum)
    ensures r.Failure? ==>
      forall k | k in prev.entries :: k in r.error.global.entries && r.error.global.entries[k] == prev.entries[k]
  {
    var start := Pass(prev, Empty(), []);
    LiteralPassShape(start, enum, mem);
    LiteralPassAbort(start, enum, mem);
    assert start.next.order + Pids(enum) == Pids(enum);
    assert start.queried + Pids(enum) == Pids(enum);
    match LiteralPass(start, enum, mem)
    case Success(acc) => Success(Generation(acc.next, acc.queried))
    case Failure(a) => Failure(a)
  }

  /**
   * Every step of a completed loop appends its pid to `newprocdata` and to the
   * queries made, so both grow by the enumeration, in order.
   */
  lemma {:induction false} LiteralPassShape(acc: Pass, procs: seq<Proc>, mem: MemOracle)
    requires acc.next.entries.Keys <= acc.global.entries.Keys
    ensures LiteralPass(acc, procs, mem).Success? ==>
      && LiteralPass(acc, procs, mem).value.next.order == acc.next.order + Pids(procs)
      && LiteralPass(acc, procs, mem).value.queried == acc.queried + Pids(procs)
    decreases |procs|
  {
    if procs == [] {
      assert acc.next.order + Pids(procs) == acc.next.order;
      assert acc.queried + Pids(procs) == acc.queried;
    } else {
      var p, tail := procs[0], procs[1..];
      assert procs == [p] + tail;
      if p.pid !in acc.global.entries && !mem(p.pid).AccessDenied? {
        LiteralHead(acc, p, tail, mem);
        var acc' := Sighted(acc, p, mem);
        assert acc'.next.order == acc.next.order + [p.pid];
        LiteralPassShape(acc', tail, mem);
        AppendPid(acc.next.order, p, tail);
        AppendPid(acc.queried, p, tail);
      }
    }
  }

  /**
   * An aborted loop stops at an enumerated pid, and it only ever added
   * entries to `procdata`: each entry present before is still there, unchanged.
   */
  lemma {:induction false} LiteralPassAbort(acc: Pass, procs: seq<Proc>, mem: MemOracle)
    ensures LiteralPass(acc, procs, mem).Failure? ==>
      && LiteralPass(acc, procs, mem).error.fault.pid in Pids(procs)
      && forall k | k in acc.global.entries ::
           && k in LiteralPass(acc, procs, mem).error.global.entries
           && LiteralPass(acc, procs, mem).error.global.entries[k] == acc.global.entries[k]
    decreases |procs|
  {
    if procs != [] {
      var p, tail := procs[0], procs[1..];
      assert procs == [p] + tail;
      assert Pids(procs) == [p.pid] + Pids(tail);
      if p.pid !in acc.global.entries && !mem(p.pid).AccessDenied? {
        LiteralHead(acc, p, tail, mem);
        var acc' := Sighted(acc, p, mem);
        LiteralPassAbort(acc', tail, mem);
      }
    }
  }

  /** The loop state after a clean first sighting of `p`: sampled, and written to both dictionaries. */
  ghost function Sighted(acc: Pass, p: Proc, mem: MemOracle): Pass
    requires !mem(p.pid).AccessDenied?
  {
    var f := FreshRecord(p, mem);
    Pass(Put(acc.global, p.pid, f), Put(acc.next, p.pid, f), acc.queried + [p.pid])
  }

  lemma LiteralHead(acc: Pass, p: Proc, tail: seq<Proc>, mem: MemOracle)
    requires p.pid !in acc.global.entries && !mem(p.pid).AccessDenied?
    ensures LiteralPass(acc, [p] + tail, mem) == LiteralPass(Sighted(acc, p, mem), tail, mem)
  {
    assert ([p] + tail)[0] == p;
    assert ([p] + tail)[1..] == tail;
  }

  lemma AdmitUnfold(d: Cache, p: Proc, tail: seq<Proc>, mem: MemOracle)
    requires Admissible(d, [p] + tail, mem)
    ensures p.pid !in d.entries && !mem(p.pid).AccessDenied?
    ensures Admissible(Put(d, p.pid, FreshRecord(p, mem)), tail, mem)
    ensures Admit(d, [p] + tail, mem) == Admit(Put(d, p.pid, FreshRecord(p, mem)), tail, mem)
  {
    AdmitHead(d, p, tail, mem);
    assert ([p] + tail)[0] == p;
    assert ([p] + tail)[1..] == tail;
  }


  /**
   * While the processes seen so far are all first sightings, the loop has
   * appended a fresh record for each of them to both dictionaries.
   */
  lemma {:induction false} LiteralPassAdmits(acc: Pass, pre: seq<Proc>, rest: seq<Proc>, mem: MemOracle)
    requires Admissible(acc.global, pre, mem)
    requires acc.next.entries.Keys <= acc.global.entries.Keys
    ensures Admissible(acc.next, pre, mem)
    ensures LiteralPass(acc, pre + rest, mem)
         == LiteralPass(Pass(Admit(acc.global, pre, mem), Admit(acc.next, pre, mem), acc.queried + Pids(pre)),
                        rest, mem)
    decreases |pre|
  {
    AdmissibleIntoSmaller(acc.global, acc.next, pre, mem);
    if pre == [] {
      assert pre + rest == rest;
      assert acc.queried + Pids(pre) == acc.queried;
    } else {
      var p, pre' := pre[0], pre[1..];
      assert pre == [p] + pre';
      assert pre + rest == [p] + (pre' + rest);
      AdmitUnfold(acc.global, p, pre', mem);
      AdmitUnfold(acc.next, p, pre', mem);
      LiteralHead(acc, p, pre' + rest, mem);
      var acc' := Sighted(acc, p, mem);
      LiteralPassAdmits(acc', pre', rest, mem);
      AppendPid(acc.queried, p, pre');
    }
  }

  /**
   * A completed pass is exactly a fresh sample of the enumeration: the new
   * generation lists every enumerated pid once, in enumeration order, each with
   * this pass's name and `meminfo`'s figures, and every pid was queried.
   */
  lemma LiteralCompletes(prev: Cache, enum: seq<Proc>, mem: MemOracle)
    requires Admissible(prev, enum, mem)
    ensures Admissible(Empty(), enum, mem)
    ensures LiteralRefresh(prev, enum, mem) == Success(Generation(Admit(Empty(), enum, mem), Pids(enum)))
  {
    assert enum + [] == enum;
    LiteralPassAdmits(Pass(prev, Empty(), []), enum, [], mem);
    var done := Pass(Admit(prev, enum, mem), Admit(Empty(), enum, mem), [] + Pids(enum));
    assert LiteralPass(Pass(prev, Empty(), []), enum, mem) == LiteralPass(done, [], mem);
    assert LiteralPass(done, [], mem) == Success(done);
    assert [] + Pids(enum) == Pids(enum);
  }

  /**
   * The first process that is not a clean first sighting stops the pass: a
   * cached or repeated pid raises `ValueError` at line 32, otherwise the memory
   * query raised. `procdata` is left holding the previous cache followed by a
   * fresh record for every process before it, and nothing is published.
   */
  lemma LiteralStopsAtFirstBadProcess(prev: Cache, pre: seq<Proc>, p: Proc, post: seq<Proc>, mem: MemOracle)
    requires Admissible(prev, pre, mem) && !Admissible(prev, pre + [p], mem)
    ensures LiteralRefresh(prev, pre + [p] + post, mem)
         == Failure(Abort(
              if p.pid in prev.entries || p.pid in Pids(pre) then UnpackError(p.pid) else QueryRaised(p.pid),
              Admit(prev, pre, mem)))
  {
    assert pre + [p] + post == pre + ([p] + post);
    LiteralPassAdmits(Pass(prev, Empty(), []), pre, [p] + post, mem);
    AdmitKeys(prev, pre, mem, p.pid);
    if !(p.pid in prev.entries || p.pid in Pids(pre)) {
      assert mem(p.pid).AccessDenied? by {
        if !mem(p.pid).AccessDenied? {
          AdmissibleAppend(prev, pre, p, mem);
        }
      }
    }
  }

  /** A clean first sighting extends an admissible run. */
  lemma AdmissibleAppend(prev: Cache, pre: seq<Proc>, p: Proc, mem: MemOracle)
    requires Admissible(prev, pre, mem)
    requires p.pid !in prev.entries && p.pid !in Pids(pre) && !mem(p.pid).AccessDenied?
    ensures Admissible(prev, pre + [p], mem)
  {
    var ps, ps' := Pids(pre), Pids(pre + [p]);
    assert ps' == ps + [p.pid];
    forall i, j | 0 <= i < j < |ps'|
      ensures ps'[i] != ps'[j]
    {
      if j == |pre| {
        assert ps'[i] == ps[i];
      } else {
        assert ps[i] != ps[j];
      }
    }
    forall i | 0 <= i < |pre| + 1
      ensures (pre + [p])[i].pid !in prev.entries && !mem((pre + [p])[i].pid).AccessDenied?
    {
      if i < |pre| {
        assert (pre + [p])[i] == pre[i];
      }
    }
  }

  /**
   * `procinfo` as written completes exactly when every enumerated pid is a
   * first sighting, listed once, whose memory query does not raise.
   */
  lemma LiteralSucceedsIff(prev: Cache, enum: seq<Proc>, mem: MemOracle)
    ensures LiteralRefresh(prev, enum, mem).Success? <==> Admissible(prev, enum, mem)
  {
    if Admissible(prev, enum, mem) {
      LiteralCompletes(prev, enum, mem);
    } else {
      var k := 0;
      assert enum[..0] == [];
      while k < |enum| && Admissible(prev, enum[..k + 1], mem)
        invariant k <= |enum| && Admissible(prev, enum[..k], mem)
        decreases |enum| - k
      {
        k := k + 1;
      }
      assert k < |enum|;
      assert enum[..k] + [enum[k]] == enum[..k + 1];
      assert enum == enum[..k] + [enum[k]] + enum[k + 1..];
      LiteralStopsAtFirstBadProcess(prev, enum[..k], enum[k], enum[k + 1..], mem);
    }
  }

  /**
   * Line 32 as written fails on every cached pid: if the enumeration meets a pid
   * of the previous cache after only clean first sightings, the pass raises
   * `ValueError` there. `procdata` then holds the previous cache, unchanged,
   * followed by a fresh record for each process enumerated before it, and no
   * generation is published.
   */
  lemma LiteralFailsAtFirstCachedPid(prev: Cache, pre: seq<Proc>, p: Proc, post: seq<Proc>, mem: MemOracle)
    requires Admissible(prev, pre, mem)
    requires p.pid in prev.entries
    ensures LiteralRefresh(prev, pre + [p] + post, mem) == Failure(Abort(UnpackError(p.pid), Admit(prev, pre, mem)))
  {
    assert (pre + [p])[|pre|] == p;
    LiteralStopsAtFirstBadProcess(prev, pre, p, post, mem);
  }

  /** Whenever any enumerated pid is already cached, the literal pass never publishes. */
  lemma LiteralFailsOnAnyCachedPid(prev: Cache, enum: seq<Proc>, mem: MemOracle, i: nat)
    requires i < |enum| && enum[i].pid in prev.entries
    ensures LiteralRefresh(prev, enum, mem).Failure?
  {
    LiteralSucceedsIff(prev, enum, mem);
  }

  /**
   * A completed literal pass publishes exactly the enumerated pids, in
   * enumeration order, each freshly sampled under this pass's name; every pid
   * was queried, and no pid of the previous cache survives.
   */
  lemma LiteralGeneration(prev: Cache, enum: seq<Proc>, mem: MemOracle)
    requires LiteralRefresh(prev, enum, mem).Success?
    ensures var g := LiteralRefresh(prev, enum, mem).value;
      && g.cache.order == Pids(enum)
      && g.queried == Pids(enum)
      && (forall pid :: pid in g.cache.entries <==> pid in Pids(enum))
      && (forall pid | pid in prev.entries :: pid !in g.cache.entries)
      && (forall i | 0 <= i < |enum| ::
            && !mem(enum[i].pid).AccessDenied?
            && g.cache.entries[enum[i].pid] == FreshRecord(enum[i], mem))
  {
    var g := LiteralRefresh(prev, enum, mem).value;
    LiteralGenerationRecords(prev, enum, mem);
    forall pid
      ensures pid in g.cache.entries <==> pid in Pids(enum)
    {
      assert pid in g.cache.entries <==> pid in g.cache.order;
    }
    forall pid | pid in prev.entries
      ensures pid !in g.cache.entries
    {
      assert pid in g.cache.entries <==> pid in g.cache.order;
      if pid in Pids(enum) {
        var i :| 0 <= i < |enum| && Pids(enum)[i] == pid;
        assert enum[i].pid in prev.entries;
        LiteralFailsOnAnyCachedPid(prev, enum, mem, i);
      }
    }
  }

  /** The records of a completed run as written: each enumerated process freshly sampled. */
  lemma LiteralGenerationRecords(prev: Cache, enum: seq<Proc>, mem: MemOracle)
    requires LiteralRefresh(prev, enum, mem).Success?
    ensures forall i | 0 <= i < |enum| ::
      && !mem(enum[i].pid).AccessDenied?
      && enum[i].pid in LiteralRefresh(prev, enum, mem).value.cache.entries
      && LiteralRefresh(prev, enum, mem).value.cache.entries[enum[i].pid] == FreshRecord(enum[i], mem)
  {
    LiteralSucceedsIff(prev, enum, mem);
    LiteralCompletes(prev, enum, mem);
  }

}
