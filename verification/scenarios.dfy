/**
 * The worked examples of the refresh cycle, on concrete caches. Figures are
 * in bytes; `MiB` bytes make one of the megabytes the table shows.
 */
module Scenarios {
  import opened Wrappers
  import opened PyDict
  import opened Memory
  import opened ProcessCache
  import opened LiteralCycle
  import opened IntendedCycle

  /** Line 17: the divisor from bytes to megabytes. */
  const MiB: nat := 1024 * 1024

  function Figure(mb: nat): Option<Megabytes> {
    Some(Megabytes(mb * MiB))
  }

  /** `{101: ("alpha", 12.0, 40.0)}` */
  function AlphaCache(): Cache {
    Put(Empty(), 101, Record("alpha", Figure(12), Figure(40)))
  }

  /** Only 202 is asked about; it uses 5 MB resident and 20 MB virtual. */
  function BetaMemory(): MemOracle {
    pid => if pid == 202 then Usage(5 * MiB, 20 * MiB) else NoSuchProcess
  }

  function AlphaBeta(): seq<Proc> {
    [Proc(101, "alpha"), Proc(202, "beta")]
  }

  /**
   * Reuse and first sighting: with 101 cached and 202 new, the intended cycle
   * keeps 101's triple, queries only 202, and publishes both in enumeration order.
   */
  lemma IntendedAlphaBeta()
    ensures IntendedRefresh(AlphaCache(), AlphaBeta(), BetaMemory()).Success?
    ensures var g := IntendedRefresh(AlphaCache(), AlphaBeta(), BetaMemory()).value;
      && g.cache.order == [101, 202]
      && g.cache.entries == map[101 := Record("alpha", Figure(12), Figure(40)),
                                202 := Record("beta", Figure(5), Figure(20))]
      && g.queried == [202]
  {
    AlphaBetaRecords();
    var g := IntendedRefresh(AlphaCache(), AlphaBeta(), BetaMemory()).value;
    EntriesOfTwo(g.cache, 101, 202, Record("alpha", Figure(12), Figure(40)), Record("beta", Figure(5), Figure(20)));
  }

  /** The example run completes, with each pid's expected record and only 202 queried. */
  lemma AlphaBetaRecords()
    ensures IntendedRefresh(AlphaCache(), AlphaBeta(), BetaMemory()).Success?
    ensures var g := IntendedRefresh(AlphaCache(), AlphaBeta(), BetaMemory()).value;
      && g.cache.order == [101, 202]
      && g.cache.entries[101] == Record("alpha", Figure(12), Figure(40))
      && g.cache.entries[202] == Record("beta", Figure(5), Figure(20))
      && g.queried == [202]
  {
    var c, e, m := AlphaCache(), AlphaBeta(), BetaMemory();
    AlphaBetaInputs();
    IntendedRefreshSpec(c, e, m);
    assert e[0].pid == 101 && e[1].pid == 202;
  }

  /** What the cycle sees in the example: two distinct pids, one query to make, and it does not raise. */
  lemma AlphaBetaInputs()
    ensures Pids(AlphaBeta()) == [101, 202]
    ensures QueriesAllowed(AlphaCache(), AlphaBeta(), BetaMemory())
    ensures Queried(AlphaCache(), AlphaBeta()) == [202]
  {
    var c, e, m := AlphaCache(), AlphaBeta(), BetaMemory();
    assert e[1..][1..] == [];
    forall i | 0 <= i < |e|
      ensures NeedsQuery(c, e[i].pid) ==> !m(e[i].pid).AccessDenied?
    {
    }
  }

  /** A dictionary whose insertion order is `[a]` holds exactly its entry for `a`. */
  lemma EntriesOfOne(d: Cache, a: Pid, ra: Record)
    requires d.order == [a] && a in d.entries && d.entries[a] == ra
    ensures d.entries == map[a := ra]
  {
    assert forall k :: k in d.entries <==> k in d.order;
  }

  /** A dictionary whose insertion order is `[a, b]` holds exactly its entries for `a` and `b`. */
  lemma EntriesOfTwo(d: Cache, a: Pid, b: Pid, ra: Record, rb: Record)
    requires d.order == [a, b] && a in d.entries && b in d.entries && d.entries[a] == ra && d.entries[b] == rb
    ensures d.entries == map[a := ra, b := rb]
  {
    assert forall k :: k in d.entries <==> k in d.order;
  }

  /**
   * The same inputs, cycle as written: 101 is cached, line 32 raises on it
   * before anything is queried, and `procdata` is left as it was.
   */
  lemma LiteralAlphaBeta()
    ensures LiteralRefresh(AlphaCache(), AlphaBeta(), BetaMemory())
         == Failure(Abort(UnpackError(101), AlphaCache()))
  {
    var c, e, m := AlphaCache(), AlphaBeta(), BetaMemory();
    assert e == [] + [Proc(101, "alpha")] + [Proc(202, "beta")];
    LiteralFailsAtFirstCachedPid(c, [], Proc(101, "alpha"), [Proc(202, "beta")], m);
  }

  /** `{101: ..., 202: ...}`, both with figures. */
  function AlphaBetaCache(): Cache {
    Put(AlphaCache(), 202, Record("beta", Figure(5), Figure(20)))
  }

  /**
   * Drop: when only 202 is enumerated, 101 is gone from the new generation and
   * 202 keeps its triple, unqueried.
   */
  lemma IntendedDropsAlpha(mem: MemOracle)
    ensures IntendedRefresh(AlphaBetaCache(), [Proc(202, "beta")], mem)
         == Success(Generation(Put(Empty(), 202, Record("beta", Figure(5), Figure(20))), []))
  {
    BetaOnlyRecords(mem);
    var g := IntendedRefresh(AlphaBetaCache(), [Proc(202, "beta")], mem).value;
    var want := Put(Empty(), 202, Record("beta", Figure(5), Figure(20)));
    EntriesOfOne(g.cache, 202, Record("beta", Figure(5), Figure(20)));
    assert g.cache == want;
  }

  /** The drop example completes, keeps 202's triple and queries nothing. */
  lemma BetaOnlyRecords(mem: MemOracle)
    ensures IntendedRefresh(AlphaBetaCache(), [Proc(202, "beta")], mem).Success?
    ensures var g := IntendedRefresh(AlphaBetaCache(), [Proc(202, "beta")], mem).value;
      && g.cache.order == [202]
      && g.cache.entries[202] == Record("beta", Figure(5), Figure(20))
      && g.queried == []
  {
    var c, e := AlphaBetaCache(), [Proc(202, "beta")];
    assert Pids(e) == [202];
    assert QueriesAllowed(c, e, mem);
    assert Queried(c, e) == [];
    IntendedRefreshSpec(c, e, mem);
    assert e[0].pid == 202;
  }
}
