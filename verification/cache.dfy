/**
 * The shared `procdata` cache: pid -> (name, rss, vms), in insertion order, and
 * the vocabulary both refresh variants share.
 */
module ProcessCache {
  import opened Wrappers
  import opened PyDict
  import opened Memory

  type Pid = nat

  /** One item of `psutil.process_iter(['pid', 'name'])`. */
  datatype Proc = Proc(pid: Pid, name: string)

  /** The cached triple `(name, rss_memory, vms_memory)`. */
  datatype Record = Record(name: string, rss: Option<Megabytes>, vms: Option<Megabytes>)

  type Cache = Dict<Pid, Record>

  /** The memory oracle: what `memory_info()` would do for each pid during this pass. */
  type MemOracle = Pid -> MemQuery

  /** Why a refresh pass stopped before publishing. */
  datatype Fault =
    | UnpackError(pid: Pid)   // `ValueError`: a cached 3-tuple unpacked into two names
    | QueryRaised(pid: Pid)   // `psutil.AccessDenied` escaping from `meminfo`

  /** An aborted pass: the exception, and `procdata` as the loop left it. */
  datatype Abort = Abort(fault: Fault, global: Cache)

  /** A completed pass: the published generation and the pids whose memory was queried, in order. */
  datatype Generation = Generation(cache: Cache, queried: seq<Pid>)

  /** The loop state of `procinfo`: `procdata`, `newprocdata`, and the queries made so far. */
  datatype Pass = Pass(global: Cache, next: Cache, queried: seq<Pid>)

  /** The pids of an enumeration, in enumeration order. */
  function Pids(procs: seq<Proc>): (ps: seq<Pid>)
    ensures |ps| == |procs|
    ensures forall i | 0 <= i < |procs| :: ps[i] == procs[i].pid
  {
    if procs == [] then [] else [procs[0].pid] + Pids(procs[1..])
  }

  /** The pids of an enumeration that starts with `p`. */
  lemma PidsCons(p: Proc, tail: seq<Proc>)
    ensures Pids([p] + tail) == [p.pid] + Pids(tail)
  {
    assert ([p] + tail)[0] == p;
    assert ([p] + tail)[1..] == tail;
  }

  /** Appending `p`'s pid and then the pids of `tail` appends the pids of `[p] + tail`. */
  lemma AppendPid(q: seq<Pid>, p: Proc, tail: seq<Proc>)
    ensures (q + [p.pid]) + Pids(tail) == q + Pids([p] + tail)
  {
    PidsCons(p, tail);
    assert (q + [p.pid]) + Pids(tail) == q + ([p.pid] + Pids(tail));
  }

  /** The record a first sighting stores: this pass's name and `meminfo`'s figures. */
  function FreshRecord(p: Proc, mem: MemOracle): (r: Record)
    requires !mem(p.pid).AccessDenied?
    ensures r.name == p.name
    ensures MemInfo(mem(p.pid)) == Success(Figures(r.rss, r.vms))
    ensures r.rss.Some? <==> mem(p.pid).Usage?
    ensures r.vms.Some? <==> mem(p.pid).Usage?
  {
    var f := MemInfo(mem(p.pid)).value;
    Record(p.name, f.rss, f.vms)
  }

  /**
   * `procs` can be inserted one after the other into `d` as first sightings:
   * each pid is new to `d`, listed once, and its memory query does not raise.
   */
  ghost predicate Admissible(d: Cache, procs: seq<Proc>, mem: MemOracle) {
    && Distinct(Pids(procs))
    && (forall i | 0 <= i < |procs| :: procs[i].pid !in d.entries && !mem(procs[i].pid).AccessDenied?)
  }

  /** A first process that is admissible, and the rest admissible after it. */
  lemma AdmitHead(d: Cache, p: Proc, rest: seq<Proc>, mem: MemOracle)
    requires Admissible(d, [p] + rest, mem)
    ensures p.pid !in d.entries && !mem(p.pid).AccessDenied?
    ensures Admissible(Put(d, p.pid, FreshRecord(p, mem)), rest, mem)
  {
    var procs := [p] + rest;
    var ps, rs := Pids(procs), Pids(rest);
    assert procs[0] == p;
    assert ps == [p.pid] + rs;
    var d' := Put(d, p.pid, FreshRecord(p, mem));
    forall i | 0 <= i < |rest|
      ensures rest[i].pid !in d'.entries && !mem(rest[i].pid).AccessDenied?
    {
      assert procs[i + 1] == rest[i];
      assert ps[0] != ps[i + 1];
    }
    forall i, j | 0 <= i < j < |rest|
      ensures rs[i] != rs[j]
    {
      assert ps[i + 1] != ps[j + 1];
    }
  }

  /**
   * Reference definition: `d` followed by a freshly sampled record for every
   * process of `procs`, in enumeration order, each admitted in turn.
   */
  ghost function Admit(d: Cache, procs: seq<Proc>, mem: MemOracle): (r: Cache)
    requires Admissible(d, procs, mem)
    ensures r.order == d.order + Pids(procs)
    ensures forall k | k in d.entries :: k in r.entries && r.entries[k] == d.entries[k]
    ensures forall i | 0 <= i < |procs| ::
              procs[i].pid in r.entries && r.entries[procs[i].pid] == FreshRecord(procs[i], mem)
    decreases |procs|
  {
    if procs == [] then
      assert d.order + Pids(procs) == d.order;
      d
    else
      assert procs == [procs[0]] + procs[1..];
      AdmitHead(d, procs[0], procs[1..], mem);
      var r := Admit(Put(d, procs[0].pid, FreshRecord(procs[0], mem)), procs[1..], mem);
      AdmitHeadResult(d, procs[0], procs[1..], mem, r);
      r
  }

  /** The step of `Admit` that puts the first process before the rest. */
  lemma AdmitHeadResult(d: Cache, p: Proc, rest: seq<Proc>, mem: MemOracle, r: Cache)
    requires p.pid !in d.entries && !mem(p.pid).AccessDenied?
    requires Admissible(Put(d, p.pid, FreshRecord(p, mem)), rest, mem)
    requires var d' := Put(d, p.pid, FreshRecord(p, mem));
      && r.order == d'.order + Pids(rest)
      && (forall k | k in d'.entries :: k in r.entries && r.entries[k] == d'.entries[k])
      && (forall i | 0 <= i < |rest| :: rest[i].pid in r.entries && r.entries[rest[i].pid] == FreshRecord(rest[i], mem))
    ensures r.order == d.order + Pids([p] + rest)
    ensures forall k | k in d.entries :: k in r.entries && r.entries[k] == d.entries[k]
    ensures forall i | 0 <= i < |[p] + rest| ::
              ([p] + rest)[i].pid in r.entries && r.entries[([p] + rest)[i].pid] == FreshRecord(([p] + rest)[i], mem)
  {
    var d' := Put(d, p.pid, FreshRecord(p, mem));
    AppendPid(d.order, p, rest);
    AdmitHeadKeeps(d, d', r);
    AdmitHeadRecords(p, rest, mem, r);
  }


  lemma AdmitHeadKeeps(d: Cache, d': Cache, r: Cache)
    requires forall k | k in d.entries :: k in d'.entries && d'.entries[k] == d.entries[k]
    requires forall k | k in d'.entries :: k in r.entries && r.entries[k] == d'.entries[k]
    ensures forall k | k in d.entries :: k in r.entries && r.entries[k] == d.entries[k]
  {
  }

  /** Every process of `[p] + rest` has its fresh record in `r` once `p` and each of `rest` have. */
  lemma AdmitHeadRecords(p: Proc, rest: seq<Proc>, mem: MemOracle, r: Cache)
    requires !mem(p.pid).AccessDenied? && p.pid in r.entries && r.entries[p.pid] == FreshRecord(p, mem)
    requires forall i | 0 <= i < |rest| :: !mem(rest[i].pid).AccessDenied?
    requires forall i | 0 <= i < |rest| :: rest[i].pid in r.entries && r.entries[rest[i].pid] == FreshRecord(rest[i], mem)
    ensures forall i | 0 <= i < |[p] + rest| ::
              ([p] + rest)[i].pid in r.entries && r.entries[([p] + rest)[i].pid] == FreshRecord(([p] + rest)[i], mem)
  {
    forall i | 0 <= i < |[p] + rest|
      ensures ([p] + rest)[i].pid in r.entries && r.entries[([p] + rest)[i].pid] == FreshRecord(([p] + rest)[i], mem)
    {
      if i > 0 {
        assert ([p] + rest)[i] == rest[i - 1];
      }
    }
  }

  /** After admitting `procs`, the cache holds exactly its previous keys and the admitted pids. */
  lemma AdmitKeys(d: Cache, procs: seq<Proc>, mem: MemOracle, k: Pid)
    requires Admissible(d, procs, mem)
    ensures k in Admit(d, procs, mem).entries <==> k in d.entries || k in Pids(procs)
  {
    var a := Admit(d, procs, mem);
    if k in a.entries {
      assert k in d.order + Pids(procs);
    }
    if k in d.entries {
      assert k in d.order;
    }
  }

  /** Whatever can be admitted after a cache can be admitted after any part of it. */
  lemma AdmissibleIntoSmaller(d: Cache, e: Cache, procs: seq<Proc>, mem: MemOracle)
    requires Admissible(d, procs, mem)
    requires e.entries.Keys <= d.entries.Keys
    ensures Admissible(e, procs, mem)
  {
  }
}
